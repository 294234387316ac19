/**
  The typed-element readers and writers as they run: moving the cursor of a
  `BitBuffer` and writing into it. Each is proved against the format of
  `TypedFields`: a parser does to the cursor what the bit-string parser says,
  a writer puts down exactly the encoding.
 */
module TypedCodec {
  import opened Words
  import opened Wrappers
  import opened BitBuffers
  import opened TypedFields
  import opened OptionalPart

  /** A parser `r` run on buffer state `a` left it in state `b`: only the cursor moved, by what `r` used. */
  ghost predicate Advanced(a: Snap, b: Snap, used: nat) {
    a.Valid() && a.pos + used <= a.end && b == a.(pos := a.pos + used)
  }

  // ---------------------------------------------------------------- element closures

  /** Run an element parser on what is left of the window. */
  method RunParser<T>(b: BitBuffer, dec: seq<bool> -> Parsed<T>) returns (out: Outcome<T>)
    requires b.Valid() && Bounded(dec)
    modifies b`pos
    ensures out == dec(old(b.View().Rest())).out
    ensures Advanced(old(b.View()), b.View(), dec(old(b.View().Rest())).used) && b.Valid()
  {
    hide BitsOf;
    var r := dec(b.View().Rest());
    b.SetRawPos(b.pos + r.used);
    out := r.out;
  }

  /** Run an element writer: its bits go in one by one. */
  method RunWriter(b: BitBuffer, bits: seq<bool>)
    requires b.Valid() && b.View().Writable(|bits|)
    modifies b`buffer, b`pos, b`end
    ensures b.Valid() && Wrote(old(b.View()), b.View(), bits)
  {
    hide BitsOf;
    ghost var a := b.View();
    WroteNothing(a);
    assert bits[..0] == [];
    for i := 0 to |bits|
      invariant b.Valid() && Wrote(a, b.View(), bits[..i])
    {
      ghost var mid := b.View();
      b.WriteBit(B2N(bits[i]));
      WroteConcat(a, mid, b.View(), bits[..i], [bits[i]]);
      assert bits[..i] + [bits[i]] == bits[..i + 1];
    }
    assert bits[..|bits|] == bits;
  }

  // ---------------------------------------------------------------- Type 2

  method ReadPbit(b: BitBuffer) returns (r: Outcome<bool>)
    requires b.Valid()
    modifies b`pos
    ensures b.Valid()
    ensures var s := old(b.View().Rest());
            if s == [] then r == Err(BufferEnded) && b.View() == old(b.View())
            else r == Ok(s[0]) && Advanced(old(b.View()), b.View(), 1)
  {
    hide BitsOf, FromBits;
    ghost var s := b.View().Rest();
    var v := b.ReadBits(1);
    if v.None? { return Err(BufferEnded); }
    OneBit(s, 0);
    assert s[0..1] == s[..1];
    r := Ok(v.value == 1);
  }

  method ReadType2Generic(obit: bool, b: BitBuffer, n: nat) returns (r: Outcome<Option<nat>>)
    requires b.Valid()
    modifies b`pos
    ensures b.Valid()
    ensures var p := ParseType2(obit, old(b.View().Rest()), n);
            r == p.out && Advanced(old(b.View()), b.View(), p.used)
  {
    hide BitsOf, FromBits;
    if !obit { return Ok(None); }
    ghost var s := b.View().Rest();
    var p := ReadPbit(b);
    if p.Err? { return Err(p.error); }
    if !p.value { return Ok(None); }
    assert b.View().Rest() == s[1..];
    var v := b.ReadBits(n);
    if v.None? { return Err(BufferEnded); }
    assert s[1..][..n] == s[1..1 + n];
    r := Ok(Some(v.value));
  }

  method ReadType2Struct<T>(obit: bool, b: BitBuffer, dec: seq<bool> -> Parsed<T>) returns (r: Outcome<Option<T>>)
    requires b.Valid() && Bounded(dec)
    modifies b`pos
    ensures b.Valid()
    ensures var p := ParseType2Struct(obit, old(b.View().Rest()), dec);
            r == p.out && Advanced(old(b.View()), b.View(), p.used)
  {
    hide BitsOf;
    if !obit { return Ok(None); }
    ghost var s := b.View().Rest();
    var p := ReadPbit(b);
    if p.Err? { return Err(p.error); }
    if !p.value { return Ok(None); }
    assert b.View().Rest() == s[1..];
    var v := RunParser(b, dec);
    r := match v case Ok(x) => Ok(Some(x)) case Err(e) => Err(e) case Panic => Panic;
  }

  method WriteType2Generic(obit: bool, b: BitBuffer, value: Option<nat>, n: nat)
    requires b.Valid() && (!obit ==> value.None?)
    requires value.Some? ==> n <= 64 && value.value < Pow2(n)
    requires obit ==> b.View().Writable(|EncType2(value, n)|)
    modifies b`buffer, b`pos, b`end
    ensures b.Valid() && Wrote(old(b.View()), b.View(), if obit then EncType2(value, n) else [])
  {
    hide BitsOf, ToBits;
    ghost var a := b.View();
    WroteNothing(a);
    if !obit { return; }
    match value
    case Some(v) =>
      b.WriteBit(1);
      ghost var mid := b.View();
      b.WriteBits(v, n);
      WroteConcat(a, mid, b.View(), [true], ToBits(v, n));
    case None =>
      b.WriteBit(0);
  }

  /** A failing element writer leaves its p-bit and what it wrote so far in the buffer. */
  method WriteType2Struct<T>(obit: bool, b: BitBuffer, value: Option<T>, enc: T -> Written)
    returns (r: Outcome<()>)
    requires b.Valid() && (!obit ==> value.None?)
    requires obit ==> b.View().Writable(|EncType2Struct(value, enc).bits|)
    modifies b`buffer, b`pos, b`end
    ensures b.Valid() && Wrote(old(b.View()), b.View(), if obit then EncType2Struct(value, enc).bits else [])
    ensures r == match EncType2Struct(value, enc).err case None => Ok(()) case Some(e) => Err(e)
    ensures obit && value.Some? && !enc(value.value).ok ==> r == Err(enc(value.value).err.value)
  {
    hide BitsOf;
    ghost var a := b.View();
    WroteNothing(a);
    if !obit { return Ok(()); }
    match value
    case Some(v) =>
      b.WriteBit(1);
      ghost var mid := b.View();
      var w := enc(v);
      RunWriter(b, w.bits);
      WroteConcat(a, mid, b.View(), [true], w.bits);
      r := if w.err.Some? then Err(w.err.value) else Ok(());
    case None =>
      b.WriteBit(0);
      r := Ok(());
  }

  // ---------------------------------------------------------------- Type 3 and 4 headers

  /** Read-only: is element `id` next? */
  method PeekMbitAndId(b: BitBuffer, id: nat) returns (r: Outcome<bool>)
    requires b.Valid()
    ensures r == PeekId(b.View().Rest(), id)
  {
    hide BitsOf, FromBits;
    ghost var s := b.View().Rest();
    var mbit := b.PeekBitsPosOffset(0, 1);
    if mbit.None? { return Err(BufferEnded); }
    SliceOfSlice(b.View().bits, b.pos, b.end, 0, 1);
    OneBit(s, 0);
    if mbit.value == 0 { return Ok(false); }
    var found := b.PeekBitsPosOffset(1, 4);
    if found.None? { return Err(BufferEnded); }
    SliceOfSlice(b.View().bits, b.pos, b.end, 1, 4);
    r := Ok(found.value == id);
  }

  /** m-bit and identifier peeked, then skipped; then the 11-bit length. */
  method ReadHeader(obit: bool, b: BitBuffer, id: nat) returns (r: Outcome<Option<nat>>)
    requires b.Valid()
    modifies b`pos
    ensures b.Valid()
    ensures var s := old(b.View().Rest()); var p := PeekId(s, id);
            if !obit || p == Ok(false) then r == Ok(None) && b.View() == old(b.View())
            else if !p.Ok? then p.Err? && r == Err(p.error) && b.View() == old(b.View())
            else if |s| < 16 then r == Err(BufferEnded) && Advanced(old(b.View()), b.View(), 5)
            else r == Ok(Some(FromBits(s[5..16]))) && Advanced(old(b.View()), b.View(), 16)
  {
    hide BitsOf, FromBits;
    if !obit { return Ok(None); }
    ghost var s := b.View().Rest();
    var p := PeekMbitAndId(b, id);
    if p.Err? { return Err(p.error); }
    if !p.value { return Ok(None); }
    var moved := b.SeekRel(5);
    assert b.View().Rest() == s[5..];
    var len := b.ReadBits(11);
    if len.None? { return Err(BufferEnded); }
    assert s[5..][..11] == s[5..16];
    r := Ok(Some(len.value));
  }

  method WriteHeader(b: BitBuffer, id: nat)
    requires b.Valid() && id < 16 && b.View().Writable(5)
    modifies b`buffer, b`pos, b`end
    ensures b.Valid() && Wrote(old(b.View()), b.View(), Header(id))
  {
    hide BitsOf, ToBits;
    ghost var a := b.View();
    b.WriteBit(1);
    ghost var mid := b.View();
    Pow2Of11();
    b.WriteBits(id, 4);
    WroteConcat(a, mid, b.View(), [true], ToBits(id, 4));
  }

  // ---------------------------------------------------------------- Type 3

  /** `(hi << 64) | lo` on 128 bits. */
  method JoinHalves(hi: nat, lo: nat, ghost s: seq<bool>, ghost t: seq<bool>) returns (r: nat)
    requires hi == FromBits(s) && lo == FromBits(t) && |t| == 64
    ensures r == FromBits(s + t)
  {
    hide FromBits;
    r := Or(Shl(hi, 64), lo);
    FromBitsConcat(s, t);
    FromBitsBound(t);
    OrAppends(hi, 64, lo);
  }

  /** Skip what was not kept of an element of `len` bits; `false` where the source panics. */
  method SkipRest(b: BitBuffer, len: nat, kept: nat) returns (ok: bool)
    requires b.Valid() && kept <= len
    modifies b`pos
    ensures b.Valid() && (ok <==> len - kept <= |old(b.View().Rest())|)
    ensures Advanced(old(b.View()), b.View(), if ok then len - kept else 0)
  {
    hide BitsOf;
    ok := true;
    if len > kept { ok := b.SeekRel(len - kept); }
  }

  /** Up to 128 bits, high half first; the cursor stays after the high half when the low half is missing. */
  method ReadUpTo128(b: BitBuffer, n: nat) returns (r: Option<nat>)
    requires b.Valid() && n <= 128
    modifies b`pos
    ensures b.Valid()
    ensures var s := old(b.View().Rest());
            if n <= |s| then r == Some(FromBits(s[..n])) && Advanced(old(b.View()), b.View(), n)
            else r == None && Advanced(old(b.View()), b.View(), if n > 64 && |s| >= n - 64 then n - 64 else 0)
  {
    hide BitsOf, FromBits;
    ghost var s := b.View().Rest();
    if n <= 64 {
      r := b.ReadBits(n);
      return;
    }
    var hi := b.ReadBits(n - 64);
    if hi.None? { return None; }
    assert b.View().Rest() == s[n - 64..];
    var lo := b.ReadBits(64);
    if lo.None? { return None; }
    var v := JoinHalves(hi.value, lo.value, s[..n - 64], s[n - 64..][..64]);
    assert s[..n - 64] + s[n - 64..][..64] == s[..n];
    r := Some(v);
  }

  method ReadType3Generic(obit: bool, b: BitBuffer, id: nat) returns (r: Outcome<Option<Type3>>)
    requires b.Valid()
    modifies b`pos
    ensures b.Valid()
    ensures var p := ParseType3Generic(obit, old(b.View().Rest()), id);
            r == p.out && Advanced(old(b.View()), b.View(), p.used)
  {
    hide BitsOf, FromBits, PeekId;
    ghost var s := b.View().Rest();
    var h := ReadHeader(obit, b, id);
    if h.Err? { return Err(h.error); }
    if h.value.None? { return Ok(None); }
    assert b.View().Rest() == s[16..];
    var len := h.value.value;
    var kept := Min(len, 128);
    var data := ReadUpTo128(b, kept);
    if data.None? { return Err(BufferEnded); }
    var ok := SkipRest(b, len, kept);
    if !ok { return Panic; }
    r := Ok(Some(Type3(id, len, data.value)));
  }

  method ReadType3Struct<T>(obit: bool, b: BitBuffer, id: nat, dec: seq<bool> -> Parsed<T>)
    returns (r: Outcome<Option<T>>)
    requires b.Valid() && Bounded(dec)
    modifies b`pos
    ensures b.Valid()
    ensures var p := ParseType3Struct(obit, old(b.View().Rest()), id, dec);
            r == p.out && Advanced(old(b.View()), b.View(), p.used)
  {
    hide BitsOf, FromBits, PeekId;
    ghost var s := b.View().Rest();
    var h := ReadHeader(obit, b, id);
    if h.Err? { return Err(h.error); }
    if h.value.None? { return Ok(None); }
    assert b.View().Rest() == s[16..];
    var len, startPos := h.value.value, b.pos;
    var v := RunParser(b, dec);
    if v.Err? { return Err(v.error); }
    if v.Panic? { return Panic; }
    if startPos + len != b.pos { return Err(InconsistentLength(len, b.pos - startPos)); }
    r := Ok(Some(v.value));
  }

  /** The 64-bit halves of a long payload, high half first. */
  method WriteUpTo128(b: BitBuffer, f: Type3)
    requires b.Valid() && f.len <= 128 && Type3Word(f) < Pow2(f.len) && b.View().Writable(f.len)
    modifies b`buffer, b`pos, b`end
    ensures b.Valid() && Wrote(old(b.View()), b.View(), ToBits(Type3Word(f), f.len))
  {
    hide BitsOf, ToBits, Pow2, Shr;
    ghost var a := b.View();
    if f.len <= 64 {
      b.WriteBits(f.data % Pow2(64), f.len);
    } else {
      ShrBound(f.data, f.len - 64, 64);
      b.WriteBits(Shr(f.data, 64), f.len - 64);
      ghost var mid := b.View();
      b.WriteBits(f.data % Pow2(64), 64);
      WroteConcat(a, mid, b.View(), ToBits(Shr(f.data, 64), f.len - 64), ToBits(f.data % Pow2(64), 64));
      ToBitsSplit(f.data, f.len - 64, 64);
    }
  }

  method WriteType3Generic(obit: bool, b: BitBuffer, value: Option<Type3>, id: nat) returns (r: Outcome<()>)
    requires b.Valid() && id < 16
    requires obit && value.Some? ==>
               && value.value.len <= 128 && Type3Word(value.value) < Pow2(value.value.len)
               && b.View().Writable(16 + value.value.len)
    modifies b`buffer, b`pos, b`end
    ensures b.Valid()
    ensures r == if !obit && value.Some? then Err(InvalidValue(id)) else Ok(())
    ensures Wrote(old(b.View()), b.View(),
                  if obit && value.Some? then EncType3(id, ToBits(Type3Word(value.value), value.value.len)) else [])
  {
    hide BitsOf, ToBits, Pow2, Wrote, Header, Type3Word;
    ghost var a := b.View();
    WroteNothing(a);
    if !obit && value.Some? { return Err(InvalidValue(id)); }
    if value.Some? {
      var f := value.value;
      WriteLength(b, id, f.len);
      ghost var mid := b.View();
      StillWritable(a, mid, Header(id) + ToBits(f.len, 11), f.len);
      WriteUpTo128(b, f);
      WroteConcat(a, mid, b.View(), Header(id) + ToBits(f.len, 11), ToBits(Type3Word(f), f.len));
    }
    r := Ok(());
  }

  /** Header followed by the length field. */
  method WriteLength(b: BitBuffer, id: nat, len: nat)
    requires b.Valid() && id < 16 && len < 2048 && b.View().Writable(16)
    modifies b`buffer, b`pos, b`end
    ensures b.Valid() && Wrote(old(b.View()), b.View(), Header(id) + ToBits(len, 11))
  {
    hide BitsOf, ToBits, Header;
    ghost var a := b.View();
    WriteHeader(b, id);
    ghost var mid := b.View();
    Pow2Of11();
    b.WriteBits(len, 11);
    WroteConcat(a, mid, b.View(), Header(id), ToBits(len, 11));
  }

  /**
    Header, a zero length field, the element, and then the length filled in. When the
    element writer fails, the header and what it wrote stay in the buffer.
   */
  method WriteType3Struct<T>(obit: bool, b: BitBuffer, value: Option<T>, id: nat, enc: T -> Written)
    returns (r: Outcome<()>)
    requires b.Valid() && id < 16
    requires obit && value.Some? ==>
               && b.View().Writable(16 + |enc(value.value).bits|)
               && (enc(value.value).ok ==> |enc(value.value).bits| < 2048)
    modifies b`buffer, b`pos, b`end
    ensures b.Valid()
    ensures !obit && value.Some? ==> r == Err(InvalidValue(id))
    ensures !obit || value.None? ==> b.View() == old(b.View())
    ensures value.None? ==> r == Ok(())
    ensures obit && value.Some? && enc(value.value).ok ==>
              r == Ok(()) && Wrote(old(b.View()), b.View(), EncType3(id, enc(value.value).bits))
    ensures obit && value.Some? && !enc(value.value).ok ==>
              && r == Err(enc(value.value).err.value)
              && Wrote(old(b.View()), b.View(), Header(id) + ToBits(0, 11) + enc(value.value).bits)
  {
    hide BitsOf, ToBits, Wrote, Header;
    if !obit && value.Some? { return Err(InvalidValue(id)); }
    if value.None? { return Ok(()); }
    ghost var a := b.View();
    var w := enc(value.value);
    WriteLength(b, id, 0);
    var posLenField := b.pos - 11;
    ghost var mid := b.View();
    StillWritable(a, mid, Header(id) + ToBits(0, 11), |w.bits|);
    CursorAfter(a, mid, Header(id) + ToBits(0, 11));
    RunWriter(b, w.bits);
    CursorAfter(mid, b.View(), w.bits);
    ghost var filled := b.View();
    WroteConcat(a, mid, filled, Header(id) + ToBits(0, 11), w.bits);
    if !w.ok { return Err(w.err.value); }
    FillLength(b, posLenField, a, Header(id), w.bits);
    r := Ok(());
  }

  /** Back-fill the 11-bit length field that stands before `payload`, and return to its end. */
  method FillLength(b: BitBuffer, posLenField: nat, ghost a: Snap, ghost h: seq<bool>, ghost payload: seq<bool>)
    requires b.Valid() && |payload| < 2048 && posLenField == a.pos + |h|
    requires Wrote(a, b.View(), h + ToBits(0, 11) + payload)
    modifies b`buffer, b`pos, b`end
    ensures b.Valid() && Wrote(a, b.View(), h + ToBits(|payload|, 11) + payload)
  {
    hide BitsOf, ToBits, Wrote;
    ghost var filled := b.View();
    CursorAfter(a, filled, h + ToBits(0, 11) + payload);
    var posEnd := b.pos;
    b.SetRawPos(posLenField);
    Pow2Of11();
    b.WriteBits(posEnd - posLenField - 11, 11);
    CursorAfter(filled.(pos := posLenField), b.View(), ToBits(|payload|, 11));
    WroteBackFilled(a, filled, b.View(), h, ToBits(0, 11), payload, ToBits(|payload|, 11));
    b.SetRawPos(posEnd);
  }

  lemma CursorAfter(a: Snap, b: Snap, w: seq<bool>)
    requires Wrote(a, b, w)
    ensures a.Valid() && b.Valid() && b.pos == a.pos + |w| && b.start == a.start && a.end <= b.end
    ensures a.pos + |w| <= a.end ==> b.end == a.end
  {
  }

  // ---------------------------------------------------------------- Type 4

  method ReadType4Header(b: BitBuffer, id: nat) returns (r: Outcome<Option<(nat, nat)>>)
    requires b.Valid()
    modifies b`pos
    ensures b.Valid()
    ensures var p := ParseType4Header(old(b.View().Rest()), id);
            r == p.out && Advanced(old(b.View()), b.View(), p.used)
  {
    hide BitsOf, FromBits, PeekId;
    ghost var s := b.View().Rest();
    var h := ReadHeader(true, b, id);
    if h.Err? { return Err(h.error); }
    if h.value.None? { return Ok(None); }
    assert b.View().Rest() == s[16..];
    var len := h.value.value;
    var count := b.ReadBits(6);
    if count.None? { return Err(BufferEnded); }
    assert s[16..][..6] == s[16..22];
    if len < 6 { return Err(InconsistentLength(6, len)); }
    if count.value == 0 { return Err(InvalidValue(0)); }
    r := Ok(Some((count.value, len - 6)));
  }

  /** `count` elements read in a row by the element parser. */
  method ReadMany<T>(b: BitBuffer, dec: seq<bool> -> Parsed<T>, count: nat) returns (r: Outcome<seq<T>>)
    requires b.Valid() && Bounded(dec)
    modifies b`pos
    ensures b.Valid()
    ensures var p := ParseMany(dec, old(b.View().Rest()), count);
            r == p.out && Advanced(old(b.View()), b.View(), p.used)
  {
    hide BitsOf, ParseMany, After;
    ghost var a := b.View();
    var elems: seq<T> := [];
    AfterNothing(ParseMany(dec, a.Rest(), count));
    for i := 0 to count
      invariant a.pos <= b.pos && b.Valid() && Advanced(a, b.View(), b.pos - a.pos)
      invariant ParseMany(dec, a.Rest(), count) ==
                After(elems, b.pos - a.pos, ParseMany(dec, b.View().Rest(), count - i))
    {
      ghost var s, used := b.View().Rest(), b.pos - a.pos;
      AfterStep(elems, used, dec, s, count - i);
      var elem := RunParser(b, dec);
      if elem.Err? { return Err(elem.error); }
      if elem.Panic? { return Panic; }
      assert b.View().Rest() == s[dec(s).used..];
      elems := elems + [elem.value];
    }
    AfterAll(elems, b.pos - a.pos, dec, b.View().Rest());
    r := Ok(elems);
  }

  /** The outcome of a list parse of which `done` has been parsed, given the outcome of the rest. */
  ghost function After<T>(done: seq<T>, used: nat, rest: Parsed<seq<T>>): Parsed<seq<T>> {
    match rest.out
    case Ok(vs) => Parsed(Ok(done + vs), used + rest.used)
    case Err(e) => Parsed(Err(e), used + rest.used)
    case Panic => Parsed(Panic, used + rest.used)
  }

  lemma AfterNothing<T>(rest: Parsed<seq<T>>)
    ensures After([], 0, rest) == rest
  {
    if rest.out.Ok? { assert [] + rest.out.value == rest.out.value; }
  }

  lemma AfterAll<T>(done: seq<T>, used: nat, dec: seq<bool> -> Parsed<T>, s: seq<bool>)
    ensures After(done, used, ParseMany(dec, s, 0)) == Parsed(Ok(done), used)
  {
    assert done + [] == done;
  }

  /** One more element parsed, or the failure that ends the list. */
  lemma AfterStep<T>(done: seq<T>, used: nat, dec: seq<bool> -> Parsed<T>, s: seq<bool>, count: nat)
    requires count > 0 && dec(s).used <= |s|
    ensures var r := dec(s); var p := After(done, used, ParseMany(dec, s, count));
            match r.out
            case Ok(v) => p == After(done + [v], used + r.used, ParseMany(dec, s[r.used..], count - 1))
            case Err(e) => p == Parsed(Err(e), used + r.used)
            case Panic => p == Parsed(Panic, used + r.used)
  {
    var r := dec(s);
    if r.out.Ok? {
      var q := ParseMany(dec, s[r.used..], count - 1);
      if q.out.Ok? { assert done + ([r.out.value] + q.out.value) == done + [r.out.value] + q.out.value; }
    }
  }

  method ReadType4Struct<T>(obit: bool, b: BitBuffer, id: nat, dec: seq<bool> -> Parsed<T>)
    returns (r: Outcome<Option<seq<T>>>)
    requires b.Valid() && Bounded(dec)
    modifies b`pos
    ensures b.Valid()
    ensures var p := ParseType4Struct(obit, old(b.View().Rest()), id, dec);
            r == p.out && Advanced(old(b.View()), b.View(), p.used)
  {
    hide BitsOf, ParseType4Header, ParseMany;
    if !obit { return Ok(None); }
    ghost var s := b.View().Rest();
    var h := ReadType4Header(b, id);
    if h.Err? { return Err(h.error); }
    if h.Panic? { return Panic; }
    if h.value.None? { return Ok(None); }
    var (count, len) := h.value.value;
    var startPos := b.pos;
    HeaderUsed(s, id);
    assert b.View().Rest() == s[22..];
    var elems := ReadMany(b, dec, count);
    if elems.Err? { return Err(elems.error); }
    if elems.Panic? { return Panic; }
    if startPos + len != b.pos { return Err(InconsistentLength(len, b.pos - startPos)); }
    r := Ok(Some(elems.value));
  }

  method ReadType4Generic(obit: bool, b: BitBuffer, id: nat) returns (r: Outcome<Option<Type4>>)
    requires b.Valid()
    modifies b`pos
    ensures b.Valid()
    ensures var p := ParseType4Generic(obit, old(b.View().Rest()), id);
            r == p.out && Advanced(old(b.View()), b.View(), p.used)
  {
    hide BitsOf, FromBits, ParseType4Header;
    if !obit { return Ok(None); }
    ghost var s := b.View().Rest();
    var h := ReadType4Header(b, id);
    if h.Err? { return Err(h.error); }
    if h.Panic? { return Panic; }
    if h.value.None? { return Ok(None); }
    var (count, len) := h.value.value;
    HeaderUsed(s, id);
    assert b.View().Rest() == s[22..];
    var kept := Min(len, 64);
    var data := b.ReadBits(kept);
    if data.None? { return Err(BufferEnded); }
    var ok := SkipRest(b, len, kept);
    if !ok { return Panic; }
    r := Ok(Some(Type4(id, len, count, data.value)));
  }

  /** All elements into a fresh payload buffer; the first failing element ends it. */
  method WritePayload<T>(elems: seq<T>, enc: T -> Written) returns (payload: BitBuffer, err: Option<PduErr>)
    ensures fresh(payload) && payload.Valid() && payload.autoExpand && payload.start == 0 && payload.pos == payload.end
    ensures payload.View().Window() == EncMany(enc, elems).bits && err == EncMany(enc, elems).err
  {
    hide BitsOf, Wrote, EncMany;
    payload := new BitBuffer.NewAutoExpand(if |elems| * 64 > 64 then |elems| * 64 else 64);
    for i := 0 to |elems|
      invariant fresh(payload) && payload.Valid() && payload.autoExpand
      invariant payload.start == 0 && payload.pos == payload.end
      invariant var q := EncMany(enc, elems[i..]);
                EncMany(enc, elems) == Written(payload.View().Window() + q.bits, q.err)
    {
      ghost var before := payload.View();
      var w := enc(elems[i]);
      RunWriter(payload, w.bits);
      WroteAppends(before, payload.View(), w.bits);
      AppendKeeps(before, payload.View(), w.bits);
      EncManyFrom(enc, elems, i, before.Window());
      if !w.ok { return payload, w.err; }
    }
    EncNone(enc, elems[|elems|..]);
    err := None;
  }

  lemma EncNone<T>(enc: T -> Written, xs: seq<T>)
    requires xs == []
    ensures EncMany(enc, xs) == Written([], None)
  {
  }

  /** Elements `i` and on, written after `done`: the next element, and then, if it succeeded, the others. */
  lemma EncManyFrom<T>(enc: T -> Written, elems: seq<T>, i: nat, done: seq<bool>)
    requires i < |elems|
    ensures var w, q, r := enc(elems[i]), EncMany(enc, elems[i..]), EncMany(enc, elems[i + 1..]);
            Written(done + q.bits, q.err) ==
              if w.ok then Written(done + w.bits + r.bits, r.err) else Written(done + w.bits, w.err)
  {
    assert elems[i..][1..] == elems[i + 1..];
    var w, r := enc(elems[i]), EncMany(enc, elems[i + 1..]);
    assert done + (w.bits + r.bits) == done + w.bits + r.bits;
  }

  lemma AppendKeeps(a: Snap, b: Snap, w: seq<bool>)
    requires Wrote(a, b, w) && a.pos == a.end
    ensures b.pos == b.end && b.start == a.start && b.autoExpand == a.autoExpand
  {
  }

  /** Why a Type-4 write is refused, if it is. */
  function Type4Refusal<T>(obit: bool, value: Option<seq<T>>, id: nat, enc: T -> Written): Option<PduErr> {
    if value.None? then None
    else if !obit then Some(InvalidValue(id))
    else if value.value == [] then Some(InvalidValue(0))
    else if |value.value| > 63 then Some(InvalidValue(|value.value|))
    else
      var w := EncMany(enc, value.value);
      if !w.ok then w.err
      else if |w.bits| + 6 > 2047 then Some(InvalidValue(|w.bits| + 6))
      else None
  }

  /** A refused write leaves the destination as it was, bit for bit. */
  method WriteType4Struct<T>(obit: bool, b: BitBuffer, value: Option<seq<T>>, id: nat, enc: T -> Written)
    returns (r: Outcome<()>)
    requires b.Valid() && id < 16
    requires value.Some? && Type4Refusal(obit, value, id, enc) == None ==>
               b.View().Writable(22 + |EncMany(enc, value.value).bits|)
    modifies b`buffer, b`pos, b`end
    ensures b.Valid()
    ensures var no := Type4Refusal(obit, value, id, enc);
            if no.Some? then r == Err(no.value) && b.View() == old(b.View())
            else
              && r == Ok(())
              && Wrote(old(b.View()), b.View(),
                       if value.Some? then EncType4(id, |value.value|, EncMany(enc, value.value).bits) else [])
    ensures value.None? ==> r == Ok(())
    ensures value.Some? ==>
              var n, w := |value.value|, EncMany(enc, value.value);
              r == if !obit then Err(InvalidValue(id))
                   else if !(1 <= n <= 63) then Err(InvalidValue(n))
                   else if w.err.Some? then Err(w.err.value)
                   else if |w.bits| + 6 > 2047 then Err(InvalidValue(|w.bits| + 6))
                   else Ok(())
  {
    hide BitsOf, ToBits, Wrote, Header, EncMany;
    ghost var a := b.View();
    WroteNothing(a);
    if !obit && value.Some? { return Err(InvalidValue(id)); }
    if value.Some? {
      var elems := value.value;
      if elems == [] { return Err(InvalidValue(0)); }
      if |elems| > 63 { return Err(InvalidValue(|elems|)); }
      var payload, err := WritePayload(elems, enc);
      if err.Some? { return Err(err.value); }
      var payloadLen := payload.GetLen();
      var lenBits := payloadLen + 6;
      if lenBits > 2047 { return Err(InvalidValue(lenBits)); }
      WriteCount(b, id, lenBits, |elems|);
      ghost var mid, h := b.View(), Header(id) + ToBits(lenBits, 11) + ToBits(|elems|, 6);
      StillWritable(a, mid, h, payloadLen);
      payload.Seek(0);
      ghost var p := payload.View().Rest();
      b.CopyBits(payload, payloadLen);
      assert p[..payloadLen] == EncMany(enc, elems).bits;
      WroteConcat(a, mid, b.View(), h, EncMany(enc, elems).bits);
    }
    r := Ok(());
  }

  /** Header, length and element count. */
  method WriteCount(b: BitBuffer, id: nat, len: nat, count: nat)
    requires b.Valid() && id < 16 && len < 2048 && count < 64 && b.View().Writable(22)
    modifies b`buffer, b`pos, b`end
    ensures b.Valid() && Wrote(old(b.View()), b.View(), Header(id) + ToBits(len, 11) + ToBits(count, 6))
  {
    hide BitsOf, ToBits, Header, Wrote;
    ghost var a := b.View();
    WriteLength(b, id, len);
    ghost var mid := b.View();
    StillWritable(a, mid, Header(id) + ToBits(len, 11), 6);
    Pow2Of11();
    b.WriteBits(count, 6);
    WroteConcat(a, mid, b.View(), Header(id) + ToBits(len, 11), ToBits(count, 6));
  }

  /** Why a generic Type-4 write is refused, if it is. */
  function Type4GenericRefusal(obit: bool, f: Type4, id: nat): Option<PduErr> {
    if !obit then Some(InvalidValue(id))
    else if f.fieldId != id then Some(InvalidValue(f.fieldId))
    else if f.len > 64 then Some(NotImplemented)
    else if f.elems > 63 then Some(InvalidValue(f.elems))
    else if f.len < 64 && f.data >= Pow2(f.len) then Some(InvalidValue(f.data))
    else None
  }

  method WriteType4Generic(obit: bool, b: BitBuffer, value: Option<Type4>, id: nat) returns (r: Outcome<()>)
    requires b.Valid() && id < 16 && (value.Some? ==> value.value.data < Pow2(64))
    requires value.Some? && Type4GenericRefusal(obit, value.value, id) == None ==>
               b.View().Writable(22 + value.value.len)
    modifies b`buffer, b`pos, b`end
    ensures b.Valid()
    ensures var no := if value.Some? then Type4GenericRefusal(obit, value.value, id) else None;
            if no.Some? then r == Err(no.value) && b.View() == old(b.View())
            else
              && r == Ok(())
              && Wrote(old(b.View()), b.View(),
                       if value.Some? then EncType4(id, value.value.elems, ToBits(value.value.data, value.value.len))
                       else [])
    ensures value.None? ==> r == Ok(())
    ensures value.Some? ==>
              var f := value.value;
              r == if !obit then Err(InvalidValue(id))
                   else if f.fieldId != id then Err(InvalidValue(f.fieldId))
                   else if f.len > 64 then Err(NotImplemented)
                   else if f.elems > 63 then Err(InvalidValue(f.elems))
                   else if f.data >= Pow2(f.len) then Err(InvalidValue(f.data))
                   else Ok(())
  {
    hide BitsOf, ToBits, Wrote, Header, Pow2;
    ghost var a := b.View();
    WroteNothing(a);
    if !obit && value.Some? { return Err(InvalidValue(id)); }
    if value.Some? {
      var f := value.value;
      if f.fieldId != id { return Err(InvalidValue(f.fieldId)); }
      if f.len > 64 { return Err(NotImplemented); }
      if f.len + 6 > 2047 { return Err(InvalidValue(f.len)); }
      if f.elems > 63 { return Err(InvalidValue(f.elems)); }
      if f.len < 64 && f.data >= Pow2(f.len) { return Err(InvalidValue(f.data)); }
      WriteCount(b, id, f.len + 6, f.elems);
      ghost var mid, h := b.View(), Header(id) + ToBits(f.len + 6, 11) + ToBits(f.elems, 6);
      StillWritable(a, mid, h, f.len);
      b.WriteBits(f.data, f.len);
      WroteConcat(a, mid, b.View(), h, ToBits(f.data, f.len));
    }
    r := Ok(());
  }

  // ---------------------------------------------------------------- the optional part of a PDU

  method WriteField2<T(!new)>(b: BitBuffer, sh: Shape2<T>, v: Value2<T>)
    requires b.Valid() && Fits2(sh, v) && b.View().Writable(|Enc2(sh, v)|)
    modifies b`buffer, b`pos, b`end
    ensures b.Valid() && Wrote(old(b.View()), b.View(), Enc2(sh, v))
  {
    hide Wrote, BitsOf, ReadsBack;
    match sh
    case Word2(n) => WriteType2Generic(true, b, v.word, n);
    case Struct2(c) => var ok := WriteType2Struct(true, b, v.elem, c.enc);
  }

  method WriteField34<T(!new)>(b: BitBuffer, sh: Shape34<T>, v: Value34<T>)
    requires b.Valid() && Fits34(sh, v) && b.View().Writable(|Enc34(sh, v)|)
    modifies b`buffer, b`pos, b`end
    ensures b.Valid() && Wrote(old(b.View()), b.View(), Enc34(sh, v))
  {
    hide Wrote, BitsOf, ReadsBack, ToBits, Pow2, EncMany;
    WroteNothing(b.View());
    match sh
    case Generic3(id) =>
      if v.g3.Some? { WordIsData(v.g3.value); }
      var r := WriteType3Generic(true, b, v.g3, id);
    case Struct3(id, c) => var r := WriteType3Struct(true, b, v.s3, id, c.enc);
    case Generic4(id) =>
      if v.g4.Some? { Pow2Mono(v.g4.value.len, 64); }
      var r := WriteType4Generic(true, b, v.g4, id);
    case Struct4(id, c) => var r := WriteType4Struct(true, b, v.s4, id, c.enc);
  }

  lemma WordIsData(f: Type3)
    requires f.data < Pow2(f.len)
    ensures Type3Word(f) == f.data
  {
    hide Pow2;
    if f.len <= 64 { Pow2Mono(f.len, 64); }
  }

  /** The Type-2 writers, one after the other. */
  method WriteAll2<T(!new)>(b: BitBuffer, shs: seq<Shape2<T>>, vs: seq<Value2<T>>)
    requires b.Valid() && AllFit2(shs, vs) && b.View().Writable(|EncAll2(shs, vs)|)
    modifies b`buffer, b`pos, b`end
    ensures b.Valid() && Wrote(old(b.View()), b.View(), EncAll2(shs, vs))
    decreases |shs|
  {
    hide Wrote, BitsOf, Fits2, Enc2;
    ghost var a := b.View();
    WroteNothing(a);
    if shs != [] {
      WriteField2(b, shs[0], vs[0]);
      ghost var mid := b.View();
      StillWritable(a, mid, Enc2(shs[0], vs[0]), |EncAll2(shs[1..], vs[1..])|);
      WriteAll2(b, shs[1..], vs[1..]);
      WroteConcat(a, mid, b.View(), Enc2(shs[0], vs[0]), EncAll2(shs[1..], vs[1..]));
    }
  }

  /** The Type-3 and Type-4 writers, one after the other. */
  method WriteAll34<T(!new)>(b: BitBuffer, shs: seq<Shape34<T>>, vs: seq<Value34<T>>)
    requires b.Valid() && AllFit34(shs, vs) && b.View().Writable(|EncAll34(shs, vs)|)
    modifies b`buffer, b`pos, b`end
    ensures b.Valid() && Wrote(old(b.View()), b.View(), EncAll34(shs, vs))
    decreases |shs|
  {
    hide Wrote, BitsOf, Fits34, Enc34;
    ghost var a := b.View();
    WroteNothing(a);
    if shs != [] {
      WriteField34(b, shs[0], vs[0]);
      ghost var mid := b.View();
      StillWritable(a, mid, Enc34(shs[0], vs[0]), |EncAll34(shs[1..], vs[1..])|);
      WriteAll34(b, shs[1..], vs[1..]);
      WroteConcat(a, mid, b.View(), Enc34(shs[0], vs[0]), EncAll34(shs[1..], vs[1..]));
    }
  }

  /** o-bit, elements, terminating m-bit. */
  method WriteOptional<T(!new)>(
      b: BitBuffer, s2: seq<Shape2<T>>, s34: seq<Shape34<T>>, v2: seq<Value2<T>>, v34: seq<Value34<T>>)
    requires b.Valid() && AllFit2(s2, v2) && AllFit34(s34, v34)
    requires b.View().Writable(|EncOptional(s2, s34, v2, v34)|)
    modifies b`buffer, b`pos, b`end
    ensures b.Valid() && Wrote(old(b.View()), b.View(), EncOptional(s2, s34, v2, v34))
  {
    hide Wrote, BitsOf, EncAll2, EncAll34, Fits2, Fits34;
    ghost var a := b.View();
    if !AnyPresent(v2, v34) {
      b.WriteBit(0);
      return;
    }
    ghost var x, y := EncAll2(s2, v2), EncAll34(s34, v34);
    b.WriteBit(1);
    ghost var mid := b.View();
    StillWritable(a, mid, [true], |x|);
    WriteAll2(b, s2, v2);
    WroteConcat(a, mid, b.View(), [true], x);
    mid := b.View();
    StillWritable(a, mid, [true] + x, |y|);
    WriteAll34(b, s34, v34);
    WroteConcat(a, mid, b.View(), [true] + x, y);
    mid := b.View();
    StillWritable(a, mid, [true] + x + y, 1);
    b.WriteBit(0);
    WroteConcat(a, mid, b.View(), [true] + x + y, [false]);
  }

  ghost predicate Bounded2<T>(sh: Shape2<T>) { sh.Struct2? ==> Bounded(sh.codec.dec) }
  ghost predicate Bounded34<T>(sh: Shape34<T>) { sh.Struct3? || sh.Struct4? ==> Bounded(sh.codec.dec) }

  method ReadField2<T>(obit: bool, b: BitBuffer, sh: Shape2<T>) returns (r: Outcome<Value2<T>>)
    requires b.Valid() && Bounded2(sh)
    modifies b`pos
    ensures b.Valid()
    ensures var p := Parse2(obit, sh, old(b.View().Rest())); r == p.out && Advanced(old(b.View()), b.View(), p.used)
  {
    hide BitsOf, ParseType2, ParseType2Struct;
    match sh
    case Word2(n) =>
      var o := ReadType2Generic(obit, b, n);
      r := Map(o, (v: Option<nat>) => WordValue(v));
    case Struct2(c) =>
      var o := ReadType2Struct(obit, b, c.dec);
      r := Map(o, (v: Option<T>) => StructValue(v));
  }

  method ReadField34<T>(obit: bool, b: BitBuffer, sh: Shape34<T>) returns (r: Outcome<Value34<T>>)
    requires b.Valid() && Bounded34(sh)
    modifies b`pos
    ensures b.Valid()
    ensures var p := Parse34(obit, sh, old(b.View().Rest())); r == p.out && Advanced(old(b.View()), b.View(), p.used)
  {
    hide BitsOf, ParseType3Generic, ParseType3Struct, ParseType4Generic, ParseType4Struct;
    match sh
    case Generic3(id) =>
      var o := ReadType3Generic(obit, b, id);
      r := Map(o, (v: Option<Type3>) => Generic3Value(v));
    case Struct3(id, c) =>
      var o := ReadType3Struct(obit, b, id, c.dec);
      r := Map(o, (v: Option<T>) => Struct3Value(v));
    case Generic4(id) =>
      var o := ReadType4Generic(obit, b, id);
      r := Map(o, (v: Option<Type4>) => Generic4Value(v));
    case Struct4(id, c) =>
      var o := ReadType4Struct(obit, b, id, c.dec);
      r := Map(o, (v: Option<seq<T>>) => Struct4Value(v));
  }

  method ReadAll2<T>(obit: bool, b: BitBuffer, shs: seq<Shape2<T>>) returns (r: Outcome<seq<Value2<T>>>)
    requires b.Valid() && forall i :: 0 <= i < |shs| ==> Bounded2(shs[i])
    modifies b`pos
    ensures b.Valid()
    ensures var p := ParseAll2(obit, shs, old(b.View().Rest())); r == p.out && Advanced(old(b.View()), b.View(), p.used)
    decreases |shs|
  {
    hide BitsOf, Parse2, Bounded2;
    if shs == [] { return Ok([]); }
    ghost var s := b.View().Rest();
    var head := ReadField2(obit, b, shs[0]);
    if head.Err? { return Err(head.error); }
    if head.Panic? { return Panic; }
    assert b.View().Rest() == Drop(s, Parse2(obit, shs[0], s).used);
    var tail := ReadAll2(obit, b, shs[1..]);
    if tail.Err? { return Err(tail.error); }
    if tail.Panic? { return Panic; }
    r := Ok([head.value] + tail.value);
  }

  method ReadAll34<T>(obit: bool, b: BitBuffer, shs: seq<Shape34<T>>) returns (r: Outcome<seq<Value34<T>>>)
    requires b.Valid() && forall i :: 0 <= i < |shs| ==> Bounded34(shs[i])
    modifies b`pos
    ensures b.Valid()
    ensures var p := ParseAll34(obit, shs, old(b.View().Rest()));
            r == p.out && Advanced(old(b.View()), b.View(), p.used)
    decreases |shs|
  {
    hide BitsOf, Parse34, Bounded34;
    if shs == [] { return Ok([]); }
    ghost var s := b.View().Rest();
    var head := ReadField34(obit, b, shs[0]);
    if head.Err? { return Err(head.error); }
    if head.Panic? { return Panic; }
    assert b.View().Rest() == Drop(s, Parse34(obit, shs[0], s).used);
    var tail := ReadAll34(obit, b, shs[1..]);
    if tail.Err? { return Err(tail.error); }
    if tail.Panic? { return Panic; }
    r := Ok([head.value] + tail.value);
  }

  method ReadOptional<T>(b: BitBuffer, s2: seq<Shape2<T>>, s34: seq<Shape34<T>>)
    returns (r: Outcome<(seq<Value2<T>>, seq<Value34<T>>)>)
    requires b.Valid()
    requires (forall i :: 0 <= i < |s2| ==> Bounded2(s2[i])) && (forall i :: 0 <= i < |s34| ==> Bounded34(s34[i]))
    modifies b`pos
    ensures b.Valid()
    ensures var p := ParseOptional(s2, s34, old(b.View().Rest()));
            r == p.out && Advanced(old(b.View()), b.View(), p.used)
  {
    hide BitsOf, ParseLists, ParseEnd, Bounded2, Bounded34;
    ghost var s := b.View().Rest();
    var obit := ReadPbit(b);
    if obit.Err? { return Err(obit.error); }
    assert b.View().Rest() == s[1..];
    var v := ReadLists(obit.value, b, s2, s34);
    if v.Err? { return Err(v.error); }
    if v.Panic? { return Panic; }
    assert b.View().Rest() == Drop(s, 1 + ParseLists(obit.value, s2, s34, s[1..]).used);
    r := ReadEnd(obit.value, b, v.value);
  }

  method ReadLists<T>(obit: bool, b: BitBuffer, s2: seq<Shape2<T>>, s34: seq<Shape34<T>>)
    returns (r: Outcome<(seq<Value2<T>>, seq<Value34<T>>)>)
    requires b.Valid()
    requires (forall i :: 0 <= i < |s2| ==> Bounded2(s2[i])) && (forall i :: 0 <= i < |s34| ==> Bounded34(s34[i]))
    modifies b`pos
    ensures b.Valid()
    ensures var p := ParseLists(obit, s2, s34, old(b.View().Rest()));
            r == p.out && Advanced(old(b.View()), b.View(), p.used)
  {
    hide BitsOf, ParseAll2, ParseAll34, Bounded2, Bounded34;
    ghost var s := b.View().Rest();
    var v2 := ReadAll2(obit, b, s2);
    if v2.Err? { return Err(v2.error); }
    if v2.Panic? { return Panic; }
    assert b.View().Rest() == Drop(s, ParseAll2(obit, s2, s).used);
    var v34 := ReadAll34(obit, b, s34);
    if v34.Err? { return Err(v34.error); }
    if v34.Panic? { return Panic; }
    r := Ok((v2.value, v34.value));
  }

  method ReadEnd<V>(obit: bool, b: BitBuffer, v: V) returns (r: Outcome<V>)
    requires b.Valid()
    modifies b`pos
    ensures b.Valid()
    ensures var p := ParseEnd(obit, v, old(b.View().Rest())); r == p.out && Advanced(old(b.View()), b.View(), p.used)
  {
    hide BitsOf;
    if !obit { return Ok(v); }
    var mbit := ReadPbit(b);
    if mbit.Err? { return Err(mbit.error); }
    if mbit.value { return Err(InvalidTrailingMbit); }
    r := Ok(v);
  }

  /** On the buffer: what the writers put down, the parsers return, stopping where the writers stopped. */
  lemma OptionalPartOnBuffer<T(!new)>(
      a: Snap, b: Snap, s2: seq<Shape2<T>>, s34: seq<Shape34<T>>, v2: seq<Value2<T>>, v34: seq<Value34<T>>)
    requires AllFit2(s2, v2) && AllFit34(s34, v34) && DistinctIds(s34)
    requires Wrote(a, b, EncOptional(s2, s34, v2, v34))
    ensures ParseOptional(s2, s34, b.(pos := a.pos).Rest()) == Parsed(Ok((v2, v34)), b.pos - a.pos)
  {
    hide EncOptional, ParseOptional, Fits2, Fits34;
    var w := EncOptional(s2, s34, v2, v34);
    WroteThenRest(a, b, w);
    var s := b.(pos := a.pos).Rest();
    assert s == w + s[|w|..];
    OptionalRoundTrip(s2, s34, v2, v34, s[|w|..]);
  }

  // ---------------------------------------------------------------- without a terminating m-bit

  method WriteOpenEnded<T(!new)>(b: BitBuffer, s2: seq<Shape2<T>>, v2: seq<Value2<T>>)
    requires b.Valid() && AllFit2(s2, v2) && b.View().Writable(|EncOpenEnded(s2, v2)|)
    modifies b`buffer, b`pos, b`end
    ensures b.Valid() && Wrote(old(b.View()), b.View(), EncOpenEnded(s2, v2))
  {
    hide Wrote, BitsOf, EncAll2, Fits2;
    ghost var a := b.View();
    if !AnyPresent(v2, []) {
      b.WriteBit(0);
      return;
    }
    b.WriteBit(1);
    ghost var mid := b.View();
    StillWritable(a, mid, [true], |EncAll2(s2, v2)|);
    WriteAll2(b, s2, v2);
    WroteConcat(a, mid, b.View(), [true], EncAll2(s2, v2));
  }

  method ReadOpenEnded<T>(b: BitBuffer, s2: seq<Shape2<T>>) returns (r: Outcome<seq<Value2<T>>>)
    requires b.Valid() && forall i :: 0 <= i < |s2| ==> Bounded2(s2[i])
    modifies b`pos
    ensures b.Valid()
    ensures var p := ParseOpenEnded(s2, old(b.View().Rest())); r == p.out && Advanced(old(b.View()), b.View(), p.used)
  {
    hide BitsOf, ParseAll2, Bounded2;
    ghost var s := b.View().Rest();
    var obit := ReadPbit(b);
    if obit.Err? { return Err(obit.error); }
    assert b.View().Rest() == s[1..];
    r := ReadAll2(obit.value, b, s2);
  }
}
