/**
  The windowed bit buffer: a byte vector with `start <= pos <= end` cursors,
  read and written up to 64 bits at a time at any alignment.

  The byte-wise code is proved to refine a plain sequence of bits. A buffer's
  abstract value is a `Snap`; `Wrote(a, b, w)` says that `b` is `a` after the
  bits `w` were written at its cursor.
 */
module BitBuffers {
  import opened Words
  import opened Wrappers

  // ---------------------------------------------------------------- values

  /** Bit `i` of a byte vector; bit 0 is the top bit of byte 0. */
  predicate BitAt(buffer: seq<byte>, i: nat)
    requires i < 8 * |buffer|
  {
    Bit(buffer[i / 8], 7 - i % 8)
  }

  /** The first `n` bits of a byte vector, in transmission order. */
  function FirstBits(buffer: seq<byte>, n: nat): (s: seq<bool>)
    requires n <= 8 * |buffer|
    ensures |s| == n
  {
    if n == 0 then [] else FirstBits(buffer, n - 1) + [BitAt(buffer, n - 1)]
  }

  function BitsOf(buffer: seq<byte>): (s: seq<bool>)
    ensures |s| == 8 * |buffer|
  {
    FirstBits(buffer, 8 * |buffer|)
  }

  lemma {:induction false} FirstBitsAt(buffer: seq<byte>, n: nat, i: nat)
    requires i < n <= 8 * |buffer|
    ensures FirstBits(buffer, n)[i] == BitAt(buffer, i)
  {
    if i == n - 1 {
    } else {
      FirstBitsAt(buffer, n - 1, i);
    }
  }

  lemma BitsOfAt(buffer: seq<byte>, i: nat)
    requires i < 8 * |buffer|
    ensures BitsOf(buffer)[i] == BitAt(buffer, i)
  {
    FirstBitsAt(buffer, 8 * |buffer|, i);
  }

  /** A buffer seen as bits. */
  datatype Snap = Snap(bits: seq<bool>, start: nat, pos: nat, end: nat, autoExpand: bool) {
    predicate Valid() { start <= pos <= end <= |bits| }

    function Window(): seq<bool>
      requires Valid()
    {
      bits[start..end]
    }

    function Rest(): seq<bool>
      requires Valid()
    {
      bits[pos..end]
    }

    /** Writing `n` bits does not hit the end of a buffer that cannot grow. */
    predicate Writable(n: nat) { pos + n <= end || autoExpand }
  }

  /**
    `b` is `a` after `w` was written at the cursor: exactly the bits under `w`
    changed, bits beyond the old capacity appear as zeroes, and `end` stays
    put when `w` fits and follows the cursor when the write was an append.
   */
  ghost predicate Wrote(a: Snap, b: Snap, w: seq<bool>) {
    && a.Valid() && b.Valid()
    && b.start == a.start
    && b.autoExpand == a.autoExpand
    && b.pos == a.pos + |w|
    && |a.bits| <= |b.bits|
    && a.end <= b.end <= a.end + |w|
    && (a.pos + |w| <= a.end ==> b.end == a.end && |b.bits| == |a.bits|)
    && (a.pos == a.end ==> b.end == b.pos)
    && (forall i :: 0 <= i < |b.bits| ==>
          b.bits[i] == if a.pos <= i < b.pos then w[i - a.pos] else i < |a.bits| && a.bits[i])
  }

  lemma WroteNothing(a: Snap)
    requires a.Valid()
    ensures Wrote(a, a, [])
  {
  }

  /** Consecutive writes are one write of the concatenation. */
  lemma WroteConcat(a: Snap, b: Snap, c: Snap, u: seq<bool>, v: seq<bool>)
    requires Wrote(a, b, u) && Wrote(b, c, v)
    ensures Wrote(a, c, u + v)
  {
  }

  /** Room for a write is still there after its first part. */
  lemma StillWritable(a: Snap, b: Snap, w: seq<bool>, n: nat)
    requires Wrote(a, b, w) && a.Writable(|w| + n)
    ensures b.Writable(n)
  {
  }

  /** An append extends the window by exactly the written bits. */
  lemma WroteAppends(a: Snap, b: Snap, w: seq<bool>)
    requires Wrote(a, b, w) && a.pos == a.end
    ensures b.Window() == a.Window() + w
  {
  }

  /** A write that fits replaces the bits under it and leaves the rest of the window alone. */
  lemma WroteInPlace(a: Snap, b: Snap, w: seq<bool>)
    requires Wrote(a, b, w) && a.pos + |w| <= a.end
    ensures b.bits == a.bits[..a.pos] + w + a.bits[a.pos + |w|..]
  {
  }

  /** Going back over a write to fill in a field of the same width, and returning to where it ended. */
  lemma WroteBackFilled(a: Snap, b: Snap, c: Snap, u: seq<bool>, z: seq<bool>, v: seq<bool>, w: seq<bool>)
    requires Wrote(a, b, u + z + v) && |w| == |z|
    requires Wrote(b.(pos := a.pos + |u|), c, w)
    ensures Wrote(a, c.(pos := b.pos), u + w + v)
  {
  }

  /** Moving the cursor back over a write makes the written bits the next bits to be read. */
  lemma WroteThenRest(a: Snap, b: Snap, w: seq<bool>)
    requires Wrote(a, b, w)
    ensures b.(pos := a.pos).Valid()
    ensures w <= b.(pos := a.pos).Rest()
  {
  }

  // ---------------------------------------------------------------- bytes

  lemma OrBound(x: byte, y: byte)
    ensures Or(x, y) < 256
  {
    Pow2Of8();
    forall k: nat | k >= 8 ensures !Bit(Or(x, y), k) {
      BitOfOr(x, y, k);
      BitsAboveBound(x, 8, k);
      BitsAboveBound(y, 8, k);
    }
    BoundFromBits(Or(x, y), 8);
  }

  /** `(b & !(mask << shift)) | (x << shift)` on bytes, with a mask of `h` bits. */
  function PatchByte(b: byte, x: nat, h: nat, shift: nat): byte {
    var kept := And(b, Not8(U8(Shl(LowMask(h), shift))));
    AndBound(b, Not8(U8(Shl(LowMask(h), shift))));
    OrBound(kept, U8(Shl(x, shift)));
    Or(kept, U8(Shl(x, shift)))
  }

  lemma AndBound(x: byte, y: byte)
    ensures And(x, y) < 256
  {
    Pow2Of8();
    forall k: nat | k >= 8 ensures !Bit(And(x, y), k) {
      BitOfAnd(x, y, k);
      BitsAboveBound(x, 8, k);
    }
    BoundFromBits(And(x, y), 8);
  }

  lemma BitOfU8(x: nat, k: nat)
    ensures Bit(U8(x), k) == (k < 8 && Bit(x, k))
  {
    Pow2Of8();
    BitOfMod(x, 8, k);
  }

  lemma BitOfNot8(x: byte, k: nat)
    ensures Bit(Not8(x), k) == (k < 8 && !Bit(x, k))
  {
    Pow2Of8();
    BitOfComplement(x, 8, k);
  }

  /** The `h` bits of `v` above its `r` low bits, as the source extracts them for one byte. */
  function Extract(v: nat, r: nat, h: nat): nat {
    And(U8(Shr(v, r)), LowMask(h))
  }

  lemma BitOfPatchByte(b: byte, v: nat, r: nat, h: nat, shift: nat, k: nat)
    requires h + shift <= 8 && k < 8
    ensures Bit(PatchByte(b, Extract(v, r, h), h, shift), k)
         == if shift <= k < shift + h then Bit(v, r + k - shift) else Bit(b, k)
  {
    var x := Extract(v, r, h);
    var m := U8(Shl(LowMask(h), shift));
    BitOfOr(And(b, Not8(m)), U8(Shl(x, shift)), k);
    BitOfAnd(b, Not8(m), k);
    BitOfNot8(m, k);
    BitOfU8(Shl(LowMask(h), shift), k);
    BitOfShl(LowMask(h), shift, k);
    BitOfU8(Shl(x, shift), k);
    BitOfShl(x, shift, k);
    if k >= shift {
      BitOfMask(h, k - shift);
      BitOfAnd(U8(Shr(v, r)), LowMask(h), k - shift);
      BitOfU8(Shr(v, r), k - shift);
      BitOfShr(v, r, k - shift);
    }
  }

  /** Patching `h` bits inside one byte, seen on the bit sequence. */
  lemma PatchedBits(buffer: seq<byte>, cur: nat, v: nat, rem: nat, h: nat)
    requires cur / 8 < |buffer| && cur % 8 + h <= 8 && h <= rem
    ensures var buffer' := buffer[cur / 8 := PatchByte(buffer[cur / 8], Extract(v, rem - h, h), h, 8 - (cur % 8 + h))];
            forall i :: 0 <= i < 8 * |buffer| ==>
              BitsOf(buffer')[i] == if cur <= i < cur + h then Bit(v, rem - 1 - (i - cur)) else BitsOf(buffer)[i]
  {
    var shift := 8 - (cur % 8 + h);
    var b := buffer[cur / 8];
    var b' := PatchByte(b, Extract(v, rem - h, h), h, shift);
    forall k: nat | k < 8
      ensures Bit(b', k) == if shift <= k < shift + h then Bit(v, rem - h + k - shift) else Bit(b, k)
    {
      BitOfPatchByte(b, v, rem - h, h, shift, k);
    }
    ReplacedByte(buffer, cur, v, rem, h, b');
  }

  /** Replacing one byte by one that differs only in the `h` bits from `cur` on. */
  lemma ReplacedByte(buffer: seq<byte>, cur: nat, v: nat, rem: nat, h: nat, b': byte)
    requires cur / 8 < |buffer| && cur % 8 + h <= 8 && h <= rem
    requires var shift := 8 - (cur % 8 + h);
             forall k: nat :: k < 8 ==>
               Bit(b', k) == if shift <= k < shift + h then Bit(v, rem - h + k - shift) else Bit(buffer[cur / 8], k)
    ensures var buffer' := buffer[cur / 8 := b'];
            forall i :: 0 <= i < 8 * |buffer| ==>
              BitsOf(buffer')[i] == if cur <= i < cur + h then Bit(v, rem - 1 - (i - cur)) else BitsOf(buffer)[i]
  {
    var buffer' := buffer[cur / 8 := b'];
    forall i | 0 <= i < 8 * |buffer|
      ensures BitsOf(buffer')[i] == if cur <= i < cur + h then Bit(v, rem - 1 - (i - cur)) else BitsOf(buffer)[i]
    {
      BitsOfAt(buffer, i);
      BitsOfAt(buffer', i);
    }
  }

  /** Storing a whole byte at an aligned position. */
  lemma StoredByteBits(buffer: seq<byte>, cur: nat, v: nat, rem: nat, b': byte)
    requires cur % 8 == 0 && cur / 8 < |buffer| && rem >= 8
    requires b' == U8(And(Shr(v, rem - 8), 0xFF))
    ensures var buffer' := buffer[cur / 8 := b'];
            forall i :: 0 <= i < 8 * |buffer| ==>
              BitsOf(buffer')[i] == if cur <= i < cur + 8 then Bit(v, rem - 1 - (i - cur)) else BitsOf(buffer)[i]
  {
    forall k: nat | k < 8 ensures Bit(b', k) == Bit(v, rem - 8 + k) {
      Pow2Of8();
      BitOfU8(And(Shr(v, rem - 8), 0xFF), k);
      BitOfAnd(Shr(v, rem - 8), 0xFF, k);
      BitOfMask(8, k);
      BitOfShr(v, rem - 8, k);
    }
    ReplacedByte(buffer, cur, v, rem, 8, b');
  }

  /** One more than the largest 64-bit word. */
  function WordLimit(): (p: nat)
    ensures p > 0
  {
    Pow2(64)
  }

  /** `<<` on a 64-bit word. */
  function Shl64(x: nat, n: nat): nat { Shl(x, n) % WordLimit() }

  /** Shifting the next `|t|` bits in from the right, when the result still fits 64 bits. */
  lemma ShiftIn(s: seq<bool>, t: seq<bool>, y: nat)
    requires |s| + |t| <= 64 && y == FromBits(t)
    ensures Or(Shl64(FromBits(s), |t|), y) == FromBits(s + t)
  {
    FromBitsConcat(s, t);
    FromBitsBound(s + t);
    FromBitsBound(t);
    Pow2Mono(|s + t|, 64);
    ModUnique(Shl(FromBits(s), |t|), WordLimit(), 0, Shl(FromBits(s), |t|));
    OrAppends(FromBits(s), |t|, y);
  }

  /** The `take` bits of one byte found by shifting and masking. */
  lemma FieldOfByte(buffer: seq<byte>, p: nat, take: nat)
    requires p / 8 < |buffer| && p % 8 + take <= 8
    ensures And(Shr(buffer[p / 8], 8 - p % 8 - take), LowMask(take)) == FromBits(BitsOf(buffer)[p..p + take])
  {
    hide And, Shr, LowMask, Bit, FromBits, BitsOf;
    var b := buffer[p / 8];
    var shift := 8 - p % 8 - take;
    var x := And(Shr(b, shift), LowMask(take));
    var s := BitsOf(buffer)[p..p + take];
    forall k: nat ensures Bit(x, k) == (k < take && Bit(b, k + shift)) { BitOfField(b, shift, take, k); }
    BoundFromBits(x, take);
    forall i | 0 <= i < |s| ensures s[i] == Bit(x, |s| - 1 - i) {
      BitsOfAt(buffer, p + i);
      InSameByte(p, i);
    }
    SameBits(x, s);
  }

  lemma BitOfField(b: byte, shift: nat, take: nat, k: nat)
    ensures Bit(And(Shr(b, shift), LowMask(take)), k) == (k < take && Bit(b, k + shift))
  {
    BitOfAnd(Shr(b, shift), LowMask(take), k);
    BitOfMask(take, k);
    BitOfShr(b, shift, k);
  }

  lemma InSameByte(p: nat, i: nat)
    requires p % 8 + i < 8
    ensures (p + i) / 8 == p / 8 && (p + i) % 8 == p % 8 + i
  {
  }

  lemma WholeByte(buffer: seq<byte>, p: nat)
    requires p % 8 == 0 && p / 8 < |buffer|
    ensures buffer[p / 8] == FromBits(BitsOf(buffer)[p..p + 8])
  {
    Pow2Of8();
    var s := BitsOf(buffer)[p..p + 8];
    forall i | 0 <= i < |s| ensures s[i] == Bit(buffer[p / 8], |s| - 1 - i) {
      BitsOfAt(buffer, p + i);
      assert (p + i) / 8 == p / 8 && (p + i) % 8 == i;
    }
    SameBits(buffer[p / 8], s);
  }

  lemma NoBits(s: seq<bool>)
    requires s == []
    ensures FromBits(s) == 0
  {
  }

  /** `(byte >> shift) & mask`: `take` bits inside one byte. */
  method ReadInByte(buffer: seq<byte>, p: nat, take: nat) returns (x: nat)
    requires p / 8 < |buffer| && p % 8 + take <= 8
    ensures x == FromBits(BitsOf(buffer)[p..p + take])
  {
    x := And(Shr(buffer[p / 8], 8 - p % 8 - take), LowMask(take));
    FieldOfByte(buffer, p, take);
  }

  // ---------------------------------------------------------------- xor

  /** `n` bits of `d` xor-ed into `bits` from `p` on. */
  function XorInto(bits: seq<bool>, p: nat, d: seq<bool>, n: nat): (r: seq<bool>)
    requires p + n <= |bits| && n <= |d|
    ensures |r| == |bits|
  {
    seq(|bits|, i requires 0 <= i < |bits| => if p <= i < p + n then bits[i] != d[i - p] else bits[i])
  }

  /** Xor-ing the same bits in twice restores the buffer. */
  lemma XorIntoTwice(bits: seq<bool>, p: nat, d: seq<bool>, n: nat)
    requires p + n <= |bits| && n <= |d|
    ensures XorInto(XorInto(bits, p, d, n), p, d, n) == bits
  {
    assert forall i :: 0 <= i < |bits| ==> XorInto(XorInto(bits, p, d, n), p, d, n)[i] == bits[i];
  }

  /** How many of `n` requested bits the chunked xor applies when `room` bits are left in the window. */
  function XorApplied(n: nat, room: nat): nat {
    if n <= room then n else room / 64 * 64
  }

  lemma BitOfFromBits(s: seq<bool>, k: nat)
    ensures Bit(FromBits(s), k) == (k < |s| && s[|s| - 1 - k])
  {
    FromBitsBound(s);
    if k < |s| {
      ToFromBits(s);
      ToBitsAt(FromBits(s), |s|, |s| - 1 - k);
    } else {
      BitsAboveBound(FromBits(s), |s|, k);
    }
  }

  /** Xor of two words of `n` bits, bit by bit. */
  lemma XorWords(s: seq<bool>, t: seq<bool>, x: nat)
    requires |s| == |t| && x == Xor(FromBits(s), FromBits(t))
    ensures x < Pow2(|s|)
    ensures forall i :: 0 <= i < |s| ==> ToBits(x, |s|)[i] == (s[i] != t[i])
  {
    forall k: nat ensures Bit(x, k) == (k < |s| && s[|s| - 1 - k] != t[|s| - 1 - k]) {
      BitOfXor(FromBits(s), FromBits(t), k);
      BitOfFromBits(s, k);
      BitOfFromBits(t, k);
    }
    BoundFromBits(x, |s|);
    forall i | 0 <= i < |s| ensures ToBits(x, |s|)[i] == (s[i] != t[i]) {
      ToBitsAt(x, |s|, i);
    }
  }

  /** Dropping the low bits of a word drops the end of its bit string. */
  lemma {:induction false} ShrDropsTail(s: seq<bool>, t: seq<bool>)
    ensures Shr(FromBits(s + t), |t|) == FromBits(s)
  {
    if t == [] {
      assert s + t == s;
    } else {
      var t' := t[..|t| - 1];
      assert (s + t)[..|s + t| - 1] == s + t';
      ShrDropsTail(s, t');
    }
  }

  /** `(x << n) | y` on a 64-bit word, where `x` and `y` denote adjacent slices of `d`. */
  method AppendBits(x: nat, n: nat, y: nat, ghost d: seq<bool>, ghost a: nat, ghost b: nat) returns (r: nat)
    requires a <= b && b + n <= |d| && b + n - a <= 64
    requires x == FromBits(d[a..b]) && y == FromBits(d[b..b + n])
    ensures r == FromBits(d[a..b + n])
  {
    r := Or(Shl64(x, n), y);
    ShiftIn(d[a..b], d[b..b + n], y);
    assert d[a..b] + d[b..b + n] == d[a..b + n];
  }

  /** `x >> n`, where `x` denotes a slice of `d` with `n` bits more than wanted. */
  method DropBits(x: nat, n: nat, ghost d: seq<bool>, ghost a: nat, ghost b: nat) returns (r: nat)
    requires a <= b && b + n <= |d|
    requires x == FromBits(d[a..b + n])
    ensures r == FromBits(d[a..b])
  {
    r := Shr(x, n);
    assert d[a..b + n] == d[a..b] + d[b..b + n];
    ShrDropsTail(d[a..b], d[b..b + n]);
  }

  /** The bytes of one chunk of xor data, assembled into a word of `chunk` bits. */
  method ChunkWord(data: seq<byte>, from: nat, chunk: nat, ghost d: seq<bool>) returns (x: nat)
    requires 1 <= chunk <= 64
    requires from + (chunk + 7) / 8 <= |data| && |d| == 8 * |data|
    requires forall j :: 0 <= j < |data| ==> data[j] == FromBits(d[8 * j..8 * j + 8])
    ensures x == FromBits(d[8 * from..8 * from + chunk])
  {
    hide FromBits;
    var bytes, drop := (chunk + 7) / 8, (8 - chunk % 8) % 8;
    ChunkBytes(chunk);
    x := 0;
    NoBits(d[8 * from..8 * from]);
    for j := from to from + bytes
      invariant x == FromBits(d[8 * from..8 * j])
    {
      x := AppendBits(x, 8, data[j], d, 8 * from, 8 * j);
    }
    x := DropBits(x, drop, d, 8 * from, 8 * from + chunk);
  }

  lemma ChunkBytes(chunk: nat)
    ensures 8 * ((chunk + 7) / 8) == chunk + (8 - chunk % 8) % 8
  {
  }

  // ---------------------------------------------------------------- the write loop

  /** The word `v` of `n` bits has been stored from `p` up to `cur`; everything else is as in `old`. */
  ghost predicate Stored(before: seq<bool>, after: seq<bool>, p: nat, cur: nat, v: nat, n: nat) {
    && |after| == |before|
    && p <= cur <= p + n <= |before|
    && (forall i :: 0 <= i < |after| ==>
          after[i] == if p <= i < cur then Bit(v, n - 1 - (i - p)) else before[i])
  }

  lemma StoredStep(before: seq<bool>, mid: seq<bool>, after: seq<bool>, p: nat, cur: nat, v: nat, n: nat, h: nat)
    requires Stored(before, mid, p, cur, v, n) && cur + h <= p + n && |after| == |mid|
    requires forall i :: 0 <= i < |after| ==>
               after[i] == if cur <= i < cur + h then Bit(v, p + n - cur - 1 - (i - cur)) else mid[i]
    ensures Stored(before, after, p, cur + h, v, n)
  {
  }

  /** The value masked to its low `n` bits. */
  method MaskWord(value: nat, n: nat) returns (v: nat)
    ensures forall k: nat :: k < n ==> Bit(v, k) == Bit(value, k)
  {
    v := if n == 64 then value else And(value, LowMask(n));
    forall k: nat | k < n ensures Bit(And(value, LowMask(n)), k) == Bit(value, k) {
      BitOfAnd(value, LowMask(n), k);
      BitOfMask(n, k);
    }
  }

  /** Storing a word at the cursor of a buffer that has first been grown is a write. */
  lemma StoredIsWrote(a: Snap, grown: seq<bool>, b: Snap, v: nat, value: nat, n: nat)
    requires a.Valid() && a.pos + n <= b.end <= |b.bits|
    requires |a.bits| <= |grown|
    requires forall i :: 0 <= i < |grown| ==> grown[i] == (i < |a.bits| && a.bits[i])
    requires b.end == if a.pos + n > a.end then a.end + n else a.end
    requires a.pos + n <= a.end ==> |grown| == |a.bits|
    requires b.start == a.start && b.pos == a.pos + n && b.autoExpand == a.autoExpand
    requires Stored(grown, b.bits, a.pos, a.pos + n, v, n)
    requires forall k: nat :: k < n ==> Bit(v, k) == Bit(value, k)
    ensures Wrote(a, b, ToBits(value, n))
  {
    forall i | a.pos <= i < a.pos + n ensures b.bits[i] == ToBits(value, n)[i - a.pos] {
      ToBitsAt(value, n, i - a.pos);
    }
  }

  lemma ExtendedBits(buffer: seq<byte>, extra: nat)
    ensures var buffer' := buffer + seq(extra, _ => 0);
            forall i :: 0 <= i < 8 * |buffer'| ==> BitsOf(buffer')[i] == (i < 8 * |buffer| && BitsOf(buffer)[i])
  {
    var buffer' := buffer + seq(extra, _ => 0);
    forall i | 0 <= i < 8 * |buffer'|
      ensures BitsOf(buffer')[i] == (i < 8 * |buffer| && BitsOf(buffer)[i])
    {
      BitsOfAt(buffer', i);
      if i < 8 * |buffer| { BitsOfAt(buffer, i); } else { BitOfZero(7 - i % 8); }
    }
  }

  lemma SlicedBytes(buffer: seq<byte>, s: nat, e: nat)
    requires s <= e <= |buffer|
    ensures BitsOf(buffer[s..e]) == BitsOf(buffer)[8 * s..8 * e]
  {
    forall i | 0 <= i < 8 * (e - s) ensures BitsOf(buffer[s..e])[i] == BitsOf(buffer)[8 * s + i] {
      BitsOfAt(buffer[s..e], i);
      BitsOfAt(buffer, 8 * s + i);
      assert (8 * s + i) / 8 == s + i / 8 && (8 * s + i) % 8 == i % 8;
    }
  }

  /** `byte ^ (value << shift)` flips exactly one bit, and only for `value == 1`. */
  lemma FlippedBits(buffer: seq<byte>, p: nat, value: nat)
    requires p / 8 < |buffer| && value <= 1
    ensures var buffer' := buffer[p / 8 := U8(Xor(buffer[p / 8], U8(Shl(value, 7 - p % 8))))];
            forall i :: 0 <= i < 8 * |buffer| ==>
              BitsOf(buffer')[i] == if i == p then BitsOf(buffer)[i] != (value == 1) else BitsOf(buffer)[i]
  {
    var b, sh := buffer[p / 8], 7 - p % 8;
    var b' := U8(Xor(b, U8(Shl(value, sh))));
    var buffer' := buffer[p / 8 := b'];
    forall k: nat | k < 8 ensures Bit(b', k) == (Bit(b, k) != (k == sh && value == 1)) {
      BitOfU8(Xor(b, U8(Shl(value, sh))), k);
      BitOfXor(b, U8(Shl(value, sh)), k);
      BitOfU8(Shl(value, sh), k);
      BitOfShl(value, sh, k);
      if k > sh { BitsAboveBound(value, 1, k - sh); }
    }
    forall i | 0 <= i < 8 * |buffer|
      ensures BitsOf(buffer')[i] == if i == p then BitsOf(buffer)[i] != (value == 1) else BitsOf(buffer)[i]
    {
      BitsOfAt(buffer, i);
      BitsOfAt(buffer', i);
    }
  }

  /** What a write put down, a read at the same place returns, wherever the write began. */
  lemma WriteThenRead(a: Snap, b: Snap, value: nat, n: nat)
    requires Wrote(a, b, ToBits(value, n)) && value < Pow2(n)
    ensures FromBits(b.(pos := a.pos).Rest()[..n]) == value
  {
    hide ToBits, FromBits;
    WroteThenRest(a, b, ToBits(value, n));
    assert b.(pos := a.pos).Rest()[..n] == ToBits(value, n);
    FromToBits(value, n);
  }

  // ---------------------------------------------------------------- the buffer

  class BitBuffer {
    var buffer: seq<byte>
    var start: nat
    var pos: nat
    var end: nat
    var autoExpand: bool

    function View(): (s: Snap)
      reads this
    {
      Snap(BitsOf(buffer), start, pos, end, autoExpand)
    }

    predicate Valid()
      reads this
    {
      start <= pos <= end <= 8 * |buffer|
    }

    constructor New(lenBits: nat)
      ensures Valid() && start == pos == 0 && end == lenBits && !autoExpand && |buffer| == (lenBits + 7) / 8
      ensures forall i :: 0 <= i < |View().bits| ==> !View().bits[i]
    {
      buffer := seq((lenBits + 7) / 8, _ => 0);
      start, pos, end, autoExpand := 0, 0, lenBits, false;
      new;
      ExtendedBits([], (lenBits + 7) / 8);
      assert [] + buffer == buffer;
    }

    constructor NewAutoExpand(initialBits: nat)
      ensures Valid() && start == pos == end == 0 && autoExpand && |buffer| == (initialBits + 7) / 8
      ensures forall i :: 0 <= i < |View().bits| ==> !View().bits[i]
    {
      buffer := seq((initialBits + 7) / 8, _ => 0);
      start, pos, end, autoExpand := 0, 0, 0, true;
      new;
      ExtendedBits([], (initialBits + 7) / 8);
      assert [] + buffer == buffer;
    }

    /** Byte-wise copy of the bytes under `[from, b.end)`; the copy's window keeps the sub-byte offset. */
    constructor FromBytesUnder(b: BitBuffer, from: nat)
      requires b.Valid() && from <= b.end
      ensures Valid() && start == pos == from % 8 && !autoExpand
      ensures View().Window() == b.View().bits[from..b.end]
    {
      hide BitsOf;
      var startByte, endByte := from / 8, (b.end + 7) / 8;
      buffer := b.buffer[startByte..endByte];
      start, pos, end, autoExpand := from % 8, from % 8, from % 8 + (b.end - from), false;
      new;
      SlicedBytes(b.buffer, startByte, endByte);
      assert b.View().bits[8 * startByte..8 * endByte][start..end] == b.View().bits[from..b.end];
    }

    /** Copy of another buffer's window. */
    static method FromBitBuffer(b: BitBuffer) returns (r: BitBuffer)
      requires b.Valid()
      ensures fresh(r) && r.Valid() && r.pos == r.start && r.View().Window() == b.View().Window()
    {
      r := new BitBuffer.FromBytesUnder(b, b.start);
    }

    /** Copy of what is left to read in another buffer's window. */
    static method FromBitBufferPos(b: BitBuffer) returns (r: BitBuffer)
      requires b.Valid()
      ensures fresh(r) && r.Valid() && r.pos == r.start && r.View().Window() == b.View().Rest()
    {
      r := new BitBuffer.FromBytesUnder(b, b.pos);
    }

    /** Three-phase read of `n` bits at absolute position `p`: head bits, whole bytes, tail bits. */
    method ReadBitsAtUnchecked(p: nat, n: nat) returns (result: nat)
      requires n <= 64 && p + n <= 8 * |buffer|
      ensures result == FromBits(BitsOf(buffer)[p..p + n])
    {
      hide BitsOf, FromBits;
      result := 0;
      NoBits(BitsOf(buffer)[p..p]);
      var bitPos: nat, remaining: nat := p, n;
      var head := bitPos % 8;
      if head != 0 && remaining > 0 {
        var take := if 8 - head < remaining then 8 - head else remaining;
        result := ReadInByte(buffer, bitPos, take);
        bitPos, remaining := bitPos + take, remaining - take;
      }
      result := ReadAligned(result, p, bitPos, remaining);
    }

    /** From a byte boundary on (or with nothing left to read): whole bytes, then the tail bits. */
    method ReadAligned(result0: nat, ghost p: nat, bitPos0: nat, remaining0: nat) returns (result: nat)
      requires p <= bitPos0 && bitPos0 + remaining0 <= 8 * |buffer| && bitPos0 + remaining0 - p <= 64
      requires remaining0 > 0 ==> bitPos0 % 8 == 0
      requires result0 == FromBits(BitsOf(buffer)[p..bitPos0])
      ensures result == FromBits(BitsOf(buffer)[p..bitPos0 + remaining0])
    {
      hide BitsOf, FromBits;
      result := result0;
      var bitPos: nat, remaining: nat := bitPos0, remaining0;
      while remaining >= 8
        invariant p <= bitPos && bitPos + remaining == bitPos0 + remaining0
        invariant remaining > 0 ==> bitPos % 8 == 0
        invariant result == FromBits(BitsOf(buffer)[p..bitPos])
      {
        WholeByte(buffer, bitPos);
        result := AppendBits(result, 8, buffer[bitPos / 8], BitsOf(buffer), p, bitPos);
        bitPos, remaining := bitPos + 8, remaining - 8;
      }
      if remaining > 0 {
        result := ReadTail(result, p, bitPos, remaining);
      }
    }

    /** The tail phase: the top bits of one byte, one at a time. */
    method ReadTail(result0: nat, ghost p: nat, bitPos: nat, remaining: nat) returns (result: nat)
      requires p <= bitPos && bitPos + remaining <= 8 * |buffer| && bitPos + remaining - p <= 64
      requires bitPos % 8 == 0 && remaining < 8
      requires result0 == FromBits(BitsOf(buffer)[p..bitPos])
      ensures result == FromBits(BitsOf(buffer)[p..bitPos + remaining])
    {
      hide BitsOf, FromBits;
      result := result0;
      for i := 0 to remaining
        invariant result == FromBits(BitsOf(buffer)[p..bitPos + i])
      {
        var bit := ReadInByte(buffer, bitPos + i, 1);
        result := AppendBits(result, 1, bit, BitsOf(buffer), p, bitPos + i);
      }
    }

    // ---- cursors

    method GetLen() returns (n: nat)
      requires Valid()
      ensures n == |View().Window()|
    {
      n := end - start;
    }

    /** Move `pos` by a signed offset; `ok` is false where the source panics. */
    method SeekRel(offset: int) returns (ok: bool)
      requires Valid()
      modifies this`pos
      ensures ok <==> start <= old(pos) + offset <= end
      ensures pos == (if ok then old(pos) + offset else old(pos))
      ensures Valid()
    {
      ok := start <= pos + offset <= end;
      if ok { pos := pos + offset; }
    }

    method Seek(offset: nat)
      requires Valid() && start + offset <= end
      modifies this`pos
      ensures Valid() && pos == start + offset
    {
      pos := start + offset;
    }

    method SetRawPos(p: nat)
      requires Valid() && start <= p <= end
      modifies this`pos
      ensures Valid() && pos == p
    {
      pos := p;
    }

    method SetRawStart(s: nat)
      requires Valid() && s <= end && s <= pos
      modifies this`start
      ensures Valid() && start == s
    {
      start := s;
    }

    method SetRawEnd(e: nat)
      requires Valid() && e <= 8 * |buffer| && start <= e && pos <= e
      modifies this`end
      ensures Valid() && end == e
    {
      end := e;
    }

    // ---- reading

    method PeekBitsStartOffset(offset: nat, n: nat) returns (r: Option<nat>)
      requires Valid()
      ensures r.Some? <==> n <= 64 && start + offset + n <= end
      ensures r.Some? ==> r.value == FromBits(View().bits[start + offset..start + offset + n])
    {
      hide BitsOf, FromBits;
      if n > 64 || start + offset + n > end { return None; }
      var v := ReadBitsAtUnchecked(start + offset, n);
      r := Some(v);
    }

    /**
      Peek `n` bits at a signed offset from the cursor, which may reach back before the window. The
      source adds the offset as an unsigned word: a sum below zero is either far past `end` or, when
      the peek would begin before bit 0 and end after it, an index outside the vector.
     */
    method PeekBitsPosOffset(offset: int, n: nat) returns (r: Option<nat>)
      requires Valid() && !(n <= 64 && pos + offset < 0 <= pos + offset + n <= end)
      ensures r.Some? <==> n <= 64 && 0 <= pos + offset && pos + offset + n <= end
      ensures r.Some? ==> r.value == FromBits(View().bits[pos + offset..pos + offset + n])
    {
      hide BitsOf, FromBits;
      if n > 64 || pos + offset + n > end || pos + offset + n < 0 { return None; }
      if pos - start + offset >= 0 {
        r := PeekBitsStartOffset(pos - start + offset, n);
      } else {
        var v := ReadBitsAtUnchecked(pos + offset, n);
        r := Some(v);
      }
    }

    /** Read `n` bits at the cursor; a failed read moves nothing. */
    method ReadBits(n: nat) returns (r: Option<nat>)
      requires Valid()
      modifies this`pos
      ensures Valid()
      ensures r.Some? <==> n <= 64 && n <= |old(View().Rest())|
      ensures r.Some? ==> r.value == FromBits(old(View().Rest())[..n]) && pos == old(pos) + n
      ensures r.None? ==> pos == old(pos)
    {
      hide BitsOf, FromBits;
      r := PeekBitsStartOffset(pos - start, n);
      if r.Some? {
        SliceOfSlice(View().bits, pos, end, 0, n);
        pos := pos + n;
      }
    }

    // ---- writing

    /** Grow the byte vector with zeroes. */
    method ReallocTail(newCapBits: nat)
      requires (newCapBits + 7) / 8 >= |buffer|
      modifies this`buffer
      ensures |buffer| == (newCapBits + 7) / 8
      ensures forall i :: 0 <= i < 8 * |buffer| ==>
                BitsOf(buffer)[i] == (i < 8 * |old(buffer)| && BitsOf(old(buffer))[i])
    {
      ExtendedBits(buffer, (newCapBits + 7) / 8 - |buffer|);
      buffer := buffer + seq((newCapBits + 7) / 8 - |buffer|, _ => 0);
    }

    /** Advance `end` by the full size of the write, reallocating when the capacity is short. */
    method MoveEnd(extra: nat)
      requires Valid()
      modifies this`buffer, this`end
      ensures Valid() && end == old(end) + extra
      ensures |buffer| >= |old(buffer)|
      ensures forall i :: 0 <= i < 8 * |buffer| ==>
                BitsOf(buffer)[i] == (i < 8 * |old(buffer)| && BitsOf(old(buffer))[i])
    {
      var free, total := 8 * |buffer| - end, end + extra;
      if extra > free {
        var double := 8 * |buffer| * 2;
        ReallocTail(if total >= double then total else double);
      }
      end := end + extra;
    }

    /** Replace `h` bits inside the byte that holds `cur` by the bits of `v` above its low `rem - h` bits. */
    method PatchInByte(cur: nat, v: nat, rem: nat, h: nat)
      requires cur / 8 < |buffer| && cur % 8 + h <= 8 && h <= rem
      modifies this`buffer
      ensures |buffer| == |old(buffer)|
      ensures forall i :: 0 <= i < 8 * |buffer| ==>
                BitsOf(buffer)[i] == if cur <= i < cur + h then Bit(v, rem - 1 - (i - cur)) else BitsOf(old(buffer))[i]
    {
      PatchedBits(buffer, cur, v, rem, h);
      buffer := buffer[cur / 8 := PatchByte(buffer[cur / 8], Extract(v, rem - h, h), h, 8 - (cur % 8 + h))];
    }

    method StoreByte(cur: nat, v: nat, rem: nat)
      requires cur % 8 == 0 && cur / 8 < |buffer| && rem >= 8
      modifies this`buffer
      ensures |buffer| == |old(buffer)|
      ensures forall i :: 0 <= i < 8 * |buffer| ==>
                BitsOf(buffer)[i] == if cur <= i < cur + 8 then Bit(v, rem - 1 - (i - cur)) else BitsOf(old(buffer))[i]
    {
      var byteVal := U8(And(Shr(v, rem - 8), 0xFF));
      StoredByteBits(buffer, cur, v, rem, byteVal);
      buffer := buffer[cur / 8 := byteVal];
    }

    /** The three-phase store of the low `n` bits of `v` at `p`. */
    method StoreWord(p: nat, v: nat, n: nat)
      requires p + n <= 8 * |buffer|
      modifies this`buffer
      ensures Stored(BitsOf(old(buffer)), BitsOf(buffer), p, p + n, v, n)
    {
      ghost var before := BitsOf(buffer);
      var remaining: nat, cur: nat := n, p;
      var head := cur % 8;
      if head != 0 && remaining > 0 {
        var h := if remaining < 8 - head then remaining else 8 - head;
        PatchInByte(cur, v, remaining, h);
        StoredStep(before, before, BitsOf(buffer), p, cur, v, n, h);
        cur, remaining := cur + h, remaining - h;
      }
      StoreAligned(before, p, cur, v, n);
    }

    /** From a byte boundary on (or with nothing left to store): whole bytes, then the tail bits. */
    method StoreAligned(ghost before: seq<bool>, p: nat, from: nat, v: nat, n: nat)
      requires Stored(before, BitsOf(buffer), p, from, v, n) && (from < p + n ==> from % 8 == 0)
      modifies this`buffer
      ensures Stored(before, BitsOf(buffer), p, p + n, v, n)
    {
      var cur: nat, remaining: nat := from, p + n - from;
      while remaining >= 8
        invariant cur + remaining == p + n && (remaining > 0 ==> cur % 8 == 0)
        invariant Stored(before, BitsOf(buffer), p, cur, v, n)
      {
        ghost var mid := BitsOf(buffer);
        StoreByte(cur, v, remaining);
        StoredStep(before, mid, BitsOf(buffer), p, cur, v, n, 8);
        cur, remaining := cur + 8, remaining - 8;
      }
      if remaining > 0 {
        ghost var mid := BitsOf(buffer);
        PatchInByte(cur, v, remaining, remaining);
        StoredStep(before, mid, BitsOf(buffer), p, cur, v, n, remaining);
      }
    }

    /** Write up to 64 bits at the cursor, growing the buffer when it may. */
    method WriteBits(value: nat, n: nat)
      requires Valid() && n <= 64 && value < Pow2(n) && View().Writable(n)
      modifies this`buffer, this`pos, this`end
      ensures Valid() && Wrote(old(View()), View(), ToBits(value, n))
      ensures end == old(if pos + n > end then end + n else end)
    {
      if pos + n > end {
        MoveEnd(n);
      }
      ghost var grown := BitsOf(buffer);
      var v := MaskWord(value, n);
      StoreWord(pos, v, n);
      pos := pos + n;
      StoredIsWrote(old(View()), grown, View(), v, value, n);
    }

    method WriteBit(value: nat)
      requires Valid() && value <= 1 && View().Writable(1)
      modifies this`buffer, this`pos, this`end
      ensures Valid() && Wrote(old(View()), View(), [value == 1])
      ensures end == old(if pos + 1 > end then end + 1 else end)
    {
      if pos + 1 > end {
        MoveEnd(1);
      }
      PatchInByte(pos, value, 1, 1);
      assert Bit(value, 0) == (value == 1);
      pos := pos + 1;
    }

    /** Flip the bit at the cursor. There is no check against `end`, so the cursor can leave the window. */
    method XorBit(value: nat)
      requires Valid() && value <= 1 && pos < 8 * |buffer|
      modifies this`buffer, this`pos
      ensures |buffer| == |old(buffer)| && pos == old(pos) + 1
      ensures View().bits == old(View()).bits[old(pos) := old(View()).bits[old(pos)] != (value == 1)]
      ensures Valid() <==> old(pos) < end
    {
      hide BitsOf;
      FlippedBits(buffer, pos, value);
      buffer := buffer[pos / 8 := U8(Xor(buffer[pos / 8], U8(Shl(value, 7 - pos % 8))))];
      pos := pos + 1;
    }

    // ---- whole-buffer conversions

    /** One bit per element, read from bit 0 of the vector rather than from `start`. */
    method IntoBitVec() returns (r: seq<nat>)
      requires Valid()
      ensures |r| == end - start
      ensures forall i :: 0 <= i < |r| ==> r[i] == B2N(View().bits[i])
    {
      hide BitsOf;
      r := [];
      for i := 0 to end - start
        invariant |r| == i
        invariant forall j :: 0 <= j < i ==> r[j] == B2N(View().bits[j])
      {
        var bit := ReadBitsAtUnchecked(i, 1);
        OneBit(View().bits, i);
        r := r + [bit];
      }
    }

    /** Read `out.Length` bits at the cursor into `out`, one bit per element, 64 at a time. */
    method ToBitArr(out: array<nat>)
      requires Valid() && out.Length <= |View().Rest()|
      modifies this`pos, out
      ensures Valid() && pos == old(pos) + out.Length
      ensures forall i :: 0 <= i < out.Length ==> out[i] == B2N(old(View().Rest())[i])
    {
      hide BitsOf, FromBits;
      var remaining: nat := out.Length;
      ghost var rest := View().Rest();
      while remaining > 0
        invariant Valid() && remaining <= out.Length && pos == old(pos) + (out.Length - remaining)
        invariant View().bits[old(pos)..end] == rest
        invariant forall i :: 0 <= i < out.Length - remaining ==> out[i] == B2N(rest[i])
      {
        var chunk := if remaining < 64 then remaining else 64;
        var done := out.Length - remaining;
        SliceOfSlice(View().bits, old(pos), end, done, chunk);
        SliceOfSlice(View().bits, pos, end, 0, chunk);
        var v := ReadBits(chunk);
        SpreadBits(out, done, chunk, v.value, rest);
        remaining := remaining - chunk;
      }
    }

    // ---- chunked operations

    /** One chunk of a copy: read from `src`, write here. `a` and `w` are what the copy started from. */
    method CopyChunk(src: BitBuffer, chunk: nat, ghost a: Snap, ghost w: seq<bool>, ghost done: nat)
      requires src != this && Valid() && src.Valid()
      requires chunk <= 64 && done + chunk <= |w| && View().Writable(chunk)
      requires w[done..] <= src.View().Rest() && Wrote(a, View(), w[..done])
      modifies this`buffer, this`pos, this`end, src`pos
      ensures Valid() && src.Valid() && src.pos == old(src.pos) + chunk
      ensures w[done + chunk..] <= src.View().Rest() && Wrote(a, View(), w[..done + chunk])
    {
      hide BitsOf, FromBits, ToBits;
      ghost var mid, c := View(), w[done..done + chunk];
      assert src.View().Rest()[..chunk] == c;
      var v := src.ReadBits(chunk);
      FromBitsBound(c);
      ToFromBits(c);
      WriteBits(v.value, chunk);
      WroteConcat(a, mid, View(), w[..done], c);
      assert w[..done] + c == w[..done + chunk];
    }

    /** Copy `n` bits from the cursor of `src`, 64 at a time. */
    method CopyBits(src: BitBuffer, n: nat)
      requires src != this && Valid() && src.Valid()
      requires n <= |src.View().Rest()| && View().Writable(n)
      modifies this`buffer, this`pos, this`end, src`pos
      ensures Valid() && src.Valid() && src.pos == old(src.pos) + n
      ensures Wrote(old(View()), View(), old(src.View().Rest())[..n])
    {
      hide BitsOf, Wrote;
      var remaining: nat := n;
      ghost var a, w := View(), src.View().Rest()[..n];
      WroteNothing(a);
      while remaining > 0
        invariant Valid() && src.Valid() && remaining <= n
        invariant View().Writable(remaining)
        invariant src.pos == old(src.pos) + (n - remaining)
        invariant w[n - remaining..] <= src.View().Rest() && Wrote(a, View(), w[..n - remaining])
      {
        var chunk := if remaining < 64 then remaining else 64;
        CopyChunk(src, chunk, a, w, n - remaining);
        remaining := remaining - chunk;
        StillWritable(a, View(), w[..n - remaining], remaining);
      }
      assert w[..n] == w;
    }

    /** One chunk of an xor: read, combine with the data word, seek back, write. */
    method XorChunkAt(data: seq<byte>, dataPos: nat, chunk: nat, ghost d: seq<bool>) returns (ok: bool)
      requires Valid() && 1 <= chunk <= 64 && d == BitsOf(data)
      requires pos + chunk <= end ==> dataPos + (chunk + 7) / 8 <= |data|
      modifies this`buffer, this`pos, this`end
      ensures Valid() && end == old(end) && |buffer| == |old(buffer)|
      ensures ok <==> old(pos) + chunk <= end
      ensures !ok ==> View() == old(View())
      ensures ok ==>
                && pos == old(pos) + chunk
                && View().bits == XorInto(old(View()).bits, old(pos), d[8 * dataPos..], chunk)
    {
      hide BitsOf, FromBits, ToBits, Pow2, Wrote, XorInto;
      if chunk > end - pos {
        var failed := ReadBits(chunk);
        return false;
      }
      ok := true;
      ghost var mid := View();
      var val := ReadBits(chunk);
      forall j | 0 <= j < |data| ensures data[j] == FromBits(d[8 * j..8 * j + 8]) { WholeByte(data, 8 * j); }
      var x := ChunkWord(data, dataPos, chunk, d);
      var back := SeekRel(-(chunk as int));
      var xored := XorChunk(val.value, x, mid.Rest()[..chunk], d[8 * dataPos..8 * dataPos + chunk]);
      WriteBits(xored, chunk);
      XorWritten(mid, View(), ToBits(xored, chunk), d[8 * dataPos..]);
    }

    /**
      Xor `n` bits of `data` into the buffer at the cursor. The read that finds
      the window too short stops the loop, after the chunks before it.
     */
    method XorByteArr(data: seq<byte>, n: nat) returns (ok: bool)
      requires Valid()
      requires (XorApplied(n, end - pos) + 7) / 8 <= |data|
      modifies this`buffer, this`pos, this`end
      ensures Valid() && end == old(end) && |buffer| == |old(buffer)|
      ensures ok <==> n <= old(end - pos)
      ensures var k := XorApplied(n, old(end - pos));
              && pos == old(pos) + k
              && View().bits == XorInto(old(View()).bits, old(pos), BitsOf(data), k)
    {
      hide BitsOf, XorInto, XorApplied, AtChunk;
      ghost var a, d, room := View(), BitsOf(data), end - pos;
      var remaining: nat, dataPos: nat := n, 0;
      XorIntoNothing(a.bits, a.pos, d);
      FirstChunk();
      while remaining > 0
        invariant Valid() && end == a.end && |buffer| == |old(buffer)|
        invariant remaining <= n && pos == a.pos + (n - remaining)
        invariant remaining > 0 ==> AtChunk(n - remaining, dataPos)
        invariant n - remaining <= 8 * |data|
        invariant View().bits == XorInto(a.bits, a.pos, d, n - remaining)
      {
        var chunk := if remaining < 64 then remaining else 64;
        ghost var done := n - remaining;
        XorStops(n, room, done, chunk, dataPos);
        if done + chunk <= room { ChunkFits(XorApplied(n, room), dataPos, chunk, |data|); }
        ok := XorChunkAt(data, dataPos, chunk, d);
        if !ok { return; }
        XorIntoSteps(a.bits, a.pos, d, done, chunk);
        if chunk == 64 { NextChunk(done, dataPos, chunk); }
        dataPos := dataPos + (chunk + 7) / 8;
        remaining := remaining - chunk;
      }
      XorCompletes(n, room);
      ok := true;
    }
  }

  /** Xor-ing the same data in again, from the same position, restores every bit; so does a pair of cut-off attempts. */
  method XorTwice(b: BitBuffer, data: seq<byte>, n: nat)
    requires b.Valid() && (XorApplied(n, b.end - b.pos) + 7) / 8 <= |data|
    modifies b`buffer, b`pos, b`end
    ensures b.Valid() && b.View() == old(b.View()).(pos := old(b.pos) + XorApplied(n, old(b.end - b.pos)))
  {
    hide BitsOf, XorInto, XorApplied;
    var p := b.pos;
    ghost var a, k := b.View(), XorApplied(n, b.end - b.pos);
    var first := b.XorByteArr(data, n);
    b.SetRawPos(p);
    var again := b.XorByteArr(data, n);
    XorIntoTwice(a.bits, p, BitsOf(data), k);
  }

  /** A buffer of four bits, read to its end: one more `xor_bit` and the cursor is outside the window. */
  method XorBitLeavesWindow() returns (b: BitBuffer)
    ensures fresh(b) && !b.Valid()
  {
    hide BitsOf;
    b := new BitBuffer.New(4);
    b.Seek(4);
    b.XorBit(1);
  }

  /** Reading from bit 0 gives the window whatever the buffer holds exactly when the window starts there or is empty. */
  lemma FromZeroIsWindow(start: nat, end: nat, capacity: nat)
    requires start <= end <= capacity
    ensures (forall bits: seq<bool> :: |bits| == capacity ==> bits[..end - start] == bits[start..end]) <==>
            start == 0 || start == end
  {
    if 0 < start < end {
      var bits := seq(capacity, i => i == start);
      assert |bits| == capacity && bits[..end - start][0] != bits[start..end][0];
    }
  }

  lemma SliceOfSlice(d: seq<bool>, a: nat, b: nat, o: nat, n: nat)
    requires a <= b <= |d| && a + o + n <= b
    ensures d[a..b][o..o + n] == d[a + o..a + o + n]
  {
    var l, r := d[a..b][o..o + n], d[a + o..a + o + n];
    assert forall i :: 0 <= i < n ==> l[i] == r[i];
  }

  /** How far an xor gets: all the way if the window allows, and otherwise as many whole 64-bit chunks as fit. */
  lemma HowFarXorGets(n: nat, room: nat)
    ensures var k := XorApplied(n, room);
            if n <= room then k == n else k <= room && k % 64 == 0 && room - k < 64
  {
  }

  lemma XorCompletes(n: nat, room: nat)
    requires n <= room
    ensures XorApplied(n, room) == n
  {
  }

  lemma ChunkFits(applied: nat, dataPos: nat, chunk: nat, bytes: nat)
    requires (applied + 7) / 8 <= bytes && 8 * dataPos + chunk <= applied
    ensures dataPos + (chunk + 7) / 8 <= bytes && 8 * dataPos + chunk <= 8 * bytes
  {
  }

  lemma OneBit(d: seq<bool>, i: nat)
    requires i < |d|
    ensures FromBits(d[i..i + 1]) == B2N(d[i])
  {
    assert d[i..i + 1] == [d[i]];
    assert FromBits([]) == 0;
  }

  /** Spread the `chunk` bits of `v` over `out[done..]`, top bit first. */
  method SpreadBits(out: array<nat>, done: nat, chunk: nat, v: nat, ghost rest: seq<bool>)
    requires done + chunk <= out.Length <= |rest| && v == FromBits(rest[done..done + chunk])
    requires forall i :: 0 <= i < done ==> out[i] == B2N(rest[i])
    modifies out
    ensures forall i :: 0 <= i < done + chunk ==> out[i] == B2N(rest[i])
  {
    for i := 0 to chunk
      invariant forall j :: 0 <= j < done + i ==> out[j] == B2N(rest[j])
    {
      out[done + i] := BitOfWord(v, chunk - 1 - i, rest[done..done + chunk]);
    }
  }

  /** `(v >> k) & 1`. */
  method BitOfWord(v: nat, k: nat, ghost s: seq<bool>) returns (b: nat)
    requires k < |s| && v == FromBits(s)
    ensures b == B2N(s[|s| - 1 - k])
  {
    b := And(Shr(v, k), 1);
    BitOfFromBits(s, k);
    BitOfShr(v, k, 0);
    assert And(Shr(v, k) / 2, 0) == 0;
  }

  /** The chunk that does not fit is the one after the last whole chunk of the window. */
  lemma XorStops(n: nat, room: nat, done: nat, chunk: nat, dataPos: nat)
    requires done < n && done <= room && AtChunk(done, dataPos) && chunk == if n - done < 64 then n - done else 64
    ensures done == 8 * dataPos
    ensures done + chunk <= room ==> done + chunk <= XorApplied(n, room)
    ensures done + chunk > room ==> XorApplied(n, room) == done && n > room
  {
  }

  /** `done` bits of an xor are whole chunks, and the data has been used up to byte `dataPos`. */
  predicate AtChunk(done: nat, dataPos: nat) {
    done == 8 * dataPos && dataPos % 8 == 0
  }

  lemma FirstChunk()
    ensures AtChunk(0, 0)
  {
  }

  lemma NextChunk(done: nat, dataPos: nat, chunk: nat)
    requires AtChunk(done, dataPos) && chunk == 64
    ensures AtChunk(done + chunk, dataPos + (chunk + 7) / 8)
  {
  }

  /** Writing back the xor-ed bits of a chunk is the xor of the chunk. */
  lemma XorWritten(mid: Snap, after: Snap, w: seq<bool>, d: seq<bool>)
    requires Wrote(mid, after, w) && mid.pos + |w| <= mid.end && |w| <= |d|
    requires forall i :: 0 <= i < |w| ==> w[i] == (mid.Rest()[i] != d[i])
    ensures after.bits == XorInto(mid.bits, mid.pos, d, |w|)
    ensures after.end == mid.end && after.pos == mid.pos + |w| && |after.bits| == |mid.bits|
  {
    var x := XorInto(mid.bits, mid.pos, d, |w|);
    forall i | 0 <= i < |x| ensures after.bits[i] == x[i] {
      if mid.pos <= i < mid.pos + |w| {
        assert w[i - mid.pos] == (mid.Rest()[i - mid.pos] != d[i - mid.pos]);
      }
    }
  }

  method XorChunk(val: nat, x: nat, ghost s: seq<bool>, ghost t: seq<bool>) returns (r: nat)
    requires |s| == |t| && val == FromBits(s) && x == FromBits(t)
    ensures r < Pow2(|s|)
    ensures forall i :: 0 <= i < |s| ==> ToBits(r, |s|)[i] == (s[i] != t[i])
  {
    r := Xor(val, x);
    XorWords(s, t, r);
  }

  lemma XorIntoNothing(bits: seq<bool>, p: nat, d: seq<bool>)
    requires p <= |bits|
    ensures XorInto(bits, p, d, 0) == bits
  {
  }

  /** Consecutive chunks compose to one xor. */
  lemma XorIntoSteps(bits: seq<bool>, p: nat, d: seq<bool>, m: nat, n: nat)
    requires p + m + n <= |bits| && m + n <= |d|
    ensures XorInto(XorInto(bits, p, d, m), p + m, d[m..], n) == XorInto(bits, p, d, m + n)
  {
  }
}
