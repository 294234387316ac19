/**
  Optional elements of MLE, CMCE, MM and SNDCP PDUs (Annex E of EN 300 392-2):
  Type-2 elements behind a p-bit, Type-3 and Type-4 elements behind an m-bit,
  a 4-bit identifier and an 11-bit length.

  This module gives the format as functions on bit strings: `Enc...` is what a
  writer puts down, `Parse...` is what a parser makes of the bits left to read
  and how far it moves the cursor, on success and on every error.
 */
module TypedFields {
  import opened Words
  import opened Wrappers

  /** The parse errors; the field names carried for logging are left out. */
  datatype PduErr =
    | BufferEnded
    | InvalidValue(value: nat)
    | InconsistentLength(expected: nat, found: nat)
    | NotImplemented
    | InvalidTrailingMbit
    | ElementErr(code: nat)

  /** `Panic` marks an assertion of the source that stops the process. */
  datatype Outcome<+T> = Ok(value: T) | Err(error: PduErr) | Panic

  /** A parser's answer and the number of bits its cursor moved. */
  datatype Parsed<+T> = Parsed(out: Outcome<T>, used: nat)

  /** What an element writer put into the buffer before it returned, and the error it returned, if any. */
  datatype Written = Written(bits: seq<bool>, err: Option<PduErr>) {
    const ok: bool := err.None?
  }

  /** An element's `to_bitbuf` and `from_bitbuf`. */
  datatype Codec<!T> = Codec(enc: T -> Written, dec: seq<bool> -> Parsed<T>)

  /** A parser never moves past the end of the window. */
  ghost predicate Bounded<T>(dec: seq<bool> -> Parsed<T>) {
    forall s :: dec(s).used <= |s|
  }

  /** The parser reads back exactly what the writer wrote, whatever follows. */
  ghost predicate ReadsBack<T(!new)>(c: Codec<T>) {
    forall x, rest :: c.enc(x).ok ==> c.dec(c.enc(x).bits + rest) == Parsed(Ok(x), |c.enc(x).bits|)
  }

  /** The writer reproduces the bits of every element the parser accepts. */
  ghost predicate Canonical<T(!new)>(c: Codec<T>) {
    forall s :: c.dec(s).out.Ok? && c.dec(s).used <= |s| ==>
                  c.enc(c.dec(s).out.value) == Written(s[..c.dec(s).used], None)
  }

  datatype Type3 = Type3(fieldId: nat, len: nat, data: nat)
  datatype Type4 = Type4(fieldId: nat, len: nat, elems: nat, data: nat)

  // ---------------------------------------------------------------- Type 2

  function EncType2(value: Option<nat>, n: nat): seq<bool> {
    match value
    case Some(v) => [true] + ToBits(v, n)
    case None => [false]
  }

  function ParseType2(obit: bool, s: seq<bool>, n: nat): Parsed<Option<nat>> {
    if !obit then Parsed(Ok(None), 0)
    else if s == [] then Parsed(Err(BufferEnded), 0)
    else if !s[0] then Parsed(Ok(None), 1)
    else if n <= 64 && 1 + n <= |s| then Parsed(Ok(Some(FromBits(s[1..1 + n]))), 1 + n)
    else Parsed(Err(BufferEnded), 1)
  }

  function EncType2Struct<T>(value: Option<T>, enc: T -> Written): Written {
    match value
    case Some(v) => Written([true] + enc(v).bits, enc(v).err)
    case None => Written([false], None)
  }

  function ParseType2Struct<T>(obit: bool, s: seq<bool>, dec: seq<bool> -> Parsed<T>): Parsed<Option<T>> {
    if !obit then Parsed(Ok(None), 0)
    else if s == [] then Parsed(Err(BufferEnded), 0)
    else if !s[0] then Parsed(Ok(None), 1)
    else
      var r := dec(s[1..]);
      match r.out
      case Ok(v) => Parsed(Ok(Some(v)), 1 + r.used)
      case Err(e) => Parsed(Err(e), 1 + r.used)
      case Panic => Parsed(Panic, 1 + r.used)
  }

  // ---------------------------------------------------------------- Type 3 and 4 headers

  /** m-bit and identifier. */
  function Header(id: nat): (s: seq<bool>)
    ensures |s| == 5
  {
    [true] + ToBits(id, 4)
  }

  /** Whether the element `id` comes next. Nothing is consumed. */
  function PeekId(s: seq<bool>, id: nat): Outcome<bool> {
    if s == [] then Err(BufferEnded)
    else if !s[0] then Ok(false)
    else if |s| < 5 then Err(BufferEnded)
    else Ok(FromBits(s[1..5]) == id)
  }

  function EncType3(id: nat, payload: seq<bool>): seq<bool> {
    Header(id) + ToBits(|payload|, 11) + payload
  }

  function EncType4(id: nat, count: nat, payload: seq<bool>): seq<bool> {
    Header(id) + ToBits(|payload| + 6, 11) + ToBits(count, 6) + payload
  }

  // ---------------------------------------------------------------- Type 3

  function Min(a: nat, b: nat): nat { if a <= b then a else b }

  function ParseType3Generic(obit: bool, s: seq<bool>, id: nat): Parsed<Option<Type3>> {
    if !obit then Parsed(Ok(None), 0)
    else match PeekId(s, id)
      case Err(e) => Parsed(Err(e), 0)
      case Panic => Parsed(Panic, 0)
      case Ok(present) =>
        if !present then Parsed(Ok(None), 0)
        else if |s| < 16 then Parsed(Err(BufferEnded), 5)
        else Type3GenericBody(s[16..], id, FromBits(s[5..16]))
  }

  /** The data of a generic Type-3 element: at most 128 bits are kept, the rest is skipped. */
  function Type3GenericBody(body: seq<bool>, id: nat, len: nat): Parsed<Option<Type3>> {
    var kept := Min(len, 128);
    if |body| < kept then
      Parsed(Err(BufferEnded), 16 + if kept > 64 && |body| >= kept - 64 then kept - 64 else 0)
    else if |body| < len then Parsed(Panic, 16 + kept)
    else Parsed(Ok(Some(Type3(id, len, FromBits(body[..kept])))), 16 + len)
  }

  function ParseType3Struct<T>(obit: bool, s: seq<bool>, id: nat, dec: seq<bool> -> Parsed<T>): Parsed<Option<T>> {
    if !obit then Parsed(Ok(None), 0)
    else match PeekId(s, id)
      case Err(e) => Parsed(Err(e), 0)
      case Panic => Parsed(Panic, 0)
      case Ok(present) =>
        if !present then Parsed(Ok(None), 0)
        else if |s| < 16 then Parsed(Err(BufferEnded), 5)
        else
          var len, r := FromBits(s[5..16]), dec(s[16..]);
          match r.out
          case Err(e) => Parsed(Err(e), 16 + r.used)
          case Panic => Parsed(Panic, 16 + r.used)
          case Ok(v) =>
            if r.used != len then Parsed(Err(InconsistentLength(len, r.used)), 16 + r.used)
            else Parsed(Ok(Some(v)), 16 + r.used)
  }

  // ---------------------------------------------------------------- Type 4

  /** Element count and payload length. */
  function ParseType4Header(s: seq<bool>, id: nat): Parsed<Option<(nat, nat)>> {
    match PeekId(s, id)
    case Err(e) => Parsed(Err(e), 0)
    case Panic => Parsed(Panic, 0)
    case Ok(present) =>
      if !present then Parsed(Ok(None), 0)
      else if |s| < 16 then Parsed(Err(BufferEnded), 5)
      else if |s| < 22 then Parsed(Err(BufferEnded), 16)
      else
        var len, count := FromBits(s[5..16]), FromBits(s[16..22]);
        if len < 6 then Parsed(Err(InconsistentLength(6, len)), 22)
        else if count == 0 then Parsed(Err(InvalidValue(0)), 22)
        else Parsed(Ok(Some((count, len - 6))), 22)
  }

  /** `count` elements in a row. */
  function ParseMany<T>(dec: seq<bool> -> Parsed<T>, s: seq<bool>, count: nat): Parsed<seq<T>>
    decreases count
  {
    if count == 0 then Parsed(Ok([]), 0)
    else
      var r := dec(s);
      match r.out
      case Err(e) => Parsed(Err(e), r.used)
      case Panic => Parsed(Panic, r.used)
      case Ok(v) =>
        var q := ParseMany(dec, if r.used <= |s| then s[r.used..] else [], count - 1);
        match q.out
        case Err(e) => Parsed(Err(e), r.used + q.used)
        case Panic => Parsed(Panic, r.used + q.used)
        case Ok(vs) => Parsed(Ok([v] + vs), r.used + q.used)
  }

  function ParseType4Struct<T>(obit: bool, s: seq<bool>, id: nat, dec: seq<bool> -> Parsed<T>): Parsed<Option<seq<T>>> {
    if !obit then Parsed(Ok(None), 0)
    else
      var h := ParseType4Header(s, id);
      match h.out
      case Err(e) => Parsed(Err(e), h.used)
      case Panic => Parsed(Panic, h.used)
      case Ok(None) => Parsed(Ok(None), h.used)
      case Ok(Some((count, len))) =>
        var q := ParseMany(dec, if h.used <= |s| then s[h.used..] else [], count);
        match q.out
        case Err(e) => Parsed(Err(e), h.used + q.used)
        case Panic => Parsed(Panic, h.used + q.used)
        case Ok(vs) =>
          if q.used != len then Parsed(Err(InconsistentLength(len, q.used)), h.used + q.used)
          else Parsed(Ok(Some(vs)), h.used + q.used)
  }

  function ParseType4Generic(obit: bool, s: seq<bool>, id: nat): Parsed<Option<Type4>> {
    if !obit then Parsed(Ok(None), 0)
    else
      var h := ParseType4Header(s, id);
      match h.out
      case Err(e) => Parsed(Err(e), h.used)
      case Panic => Parsed(Panic, h.used)
      case Ok(None) => Parsed(Ok(None), h.used)
      case Ok(Some((count, len))) =>
        var body, kept := if h.used <= |s| then s[h.used..] else [], Min(len, 64);
        if |body| < kept then Parsed(Err(BufferEnded), h.used)
        else if |body| < len then Parsed(Panic, h.used + kept)
        else Parsed(Ok(Some(Type4(id, len, count, FromBits(body[..kept])))), h.used + len)
  }

  /** What the element writer leaves in the payload buffer: everything up to and including the first failure. */
  function EncMany<T>(enc: T -> Written, xs: seq<T>): Written {
    if xs == [] then Written([], None)
    else
      var w := enc(xs[0]);
      if !w.ok then w
      else
        var q := EncMany(enc, xs[1..]);
        Written(w.bits + q.bits, q.err)
  }

  // ---------------------------------------------------------------- laws

  lemma HeaderPeeks(id: nat, other: nat, s: seq<bool>)
    requires id < 16 && Header(id) <= s
    ensures PeekId(s, other) == Ok(id == other)
  {
    hide ToBits, FromBits;
    assert s[1..5] == ToBits(id, 4);
    assert Pow2(4) == 16;
    FromToBits(id, 4);
  }

  lemma Pow2Of11()
    ensures Pow2(11) == 2048 && Pow2(6) == 64 && Pow2(4) == 16
  {
  }

  /** A present element has a header that parses to its identifier and length. */
  lemma EncHeader(id: nat, len: nat, tail: seq<bool>, s: seq<bool>)
    requires id < 16 && len < 2048 && s == Header(id) + ToBits(len, 11) + tail
    ensures |s| == 16 + |tail| && PeekId(s, id) == Ok(true)
    ensures FromBits(s[5..16]) == len && s[16..] == tail
  {
    hide ToBits, FromBits;
    assert Header(id) <= s;
    HeaderPeeks(id, id, s);
    assert s[5..16] == ToBits(len, 11);
    Pow2Of11();
    FromToBits(len, 11);
  }

  /** Conversely, a recognised header is the encoding of the identifier and the length it carries. */
  lemma PeekedHeader(id: nat, s: seq<bool>)
    requires PeekId(s, id) == Ok(true) && |s| >= 16
    ensures id < 16 && FromBits(s[5..16]) < 2048
    ensures s[..16] == Header(id) + ToBits(FromBits(s[5..16]), 11)
  {
    hide ToBits, FromBits;
    Pow2Of11();
    FromBitsBound(s[1..5]);
    FromBitsBound(s[5..16]);
    ToFromBits(s[1..5]);
    ToFromBits(s[5..16]);
    assert s[..16] == [s[0]] + s[1..5] + s[5..16];
  }

  lemma Type2RoundTrip(value: Option<nat>, n: nat, rest: seq<bool>)
    requires n <= 64 && (value.Some? ==> value.value < Pow2(n))
    ensures ParseType2(true, EncType2(value, n) + rest, n) == Parsed(Ok(value), |EncType2(value, n)|)
  {
    hide ToBits, FromBits;
    if value.Some? {
      FromToBits(value.value, n);
      assert (EncType2(value, n) + rest)[1..1 + n] == ToBits(value.value, n);
    }
  }

  lemma Type2Canonical(s: seq<bool>, n: nat)
    requires ParseType2(true, s, n).out.Ok?
    ensures ParseType2(true, s, n).used <= |s|
    ensures EncType2(ParseType2(true, s, n).out.value, n) == s[..ParseType2(true, s, n).used]
  {
    hide ToBits, FromBits;
    if s[0] { ToFromBits(s[1..1 + n]); }
  }

  lemma Type2StructRoundTrip<T(!new)>(value: Option<T>, c: Codec<T>, rest: seq<bool>)
    requires ReadsBack(c) && EncType2Struct(value, c.enc).ok
    ensures ParseType2Struct(true, EncType2Struct(value, c.enc).bits + rest, c.dec)
         == Parsed(Ok(value), |EncType2Struct(value, c.enc).bits|)
  {
    if value.Some? {
      assert (EncType2Struct(value, c.enc).bits + rest)[1..] == c.enc(value.value).bits + rest;
    }
  }

  lemma Type2StructCanonical<T(!new)>(s: seq<bool>, c: Codec<T>)
    requires Canonical(c) && Bounded(c.dec) && ParseType2Struct(true, s, c.dec).out.Ok?
    ensures var r := ParseType2Struct(true, s, c.dec);
            r.used <= |s| && EncType2Struct(r.out.value, c.enc) == Written(s[..r.used], None)
  {
  }

  /** A generic Type-3 element of at most 128 bits comes back as written, under the identifier it was written with. */
  lemma Type3GenericRoundTrip(id: nat, len: nat, data: nat, rest: seq<bool>)
    requires id < 16 && len <= 128 && data < Pow2(len)
    ensures var w := EncType3(id, ToBits(data, len));
            ParseType3Generic(true, w + rest, id) == Parsed(Ok(Some(Type3(id, len, data))), |w|)
  {
    hide ToBits, FromBits, PeekId;
    var p := ToBits(data, len);
    EncHeader(id, len, p + rest, EncType3(id, p) + rest);
    assert EncType3(id, p) + rest == Header(id) + ToBits(len, 11) + (p + rest);
    assert (p + rest)[..len] == p;
    FromToBits(data, len);
  }

  lemma Type3GenericCanonical(id: nat, s: seq<bool>)
    requires ParseType3Generic(true, s, id).out.Ok? && ParseType3Generic(true, s, id).out.value.Some?
    requires ParseType3Generic(true, s, id).out.value.value.len <= 128
    ensures var r := ParseType3Generic(true, s, id); var f := r.out.value.value;
            && f.fieldId == id && id < 16 && f.data < Pow2(f.len)
            && r.used <= |s| && EncType3(id, ToBits(f.data, f.len)) == s[..r.used]
  {
    hide ToBits, FromBits, PeekId;
    PeekedHeader(id, s);
    var len := FromBits(s[5..16]);
    FromBitsBound(s[16..][..len]);
    ToFromBits(s[16..][..len]);
    assert s[..16 + len] == s[..16] + s[16..][..len];
  }

  /** The word the generic Type-3 writer puts down: up to 64 bits it casts the data to 64 bits first. */
  function Type3Word(f: Type3): nat {
    if f.len <= 64 then f.data % Pow2(64) else f.data
  }

  /**
    The generic Type-3 writer ignores the element's own identifier and truncates short data, so what
    it accepted comes back if and only if the identifier is the field's and the data fits its length.
   */
  lemma Type3GenericWrittenRoundTrip(f: Type3, id: nat, rest: seq<bool>)
    requires id < 16 && f.len <= 128 && Type3Word(f) < Pow2(f.len)
    ensures var w := EncType3(id, ToBits(Type3Word(f), f.len));
            ParseType3Generic(true, w + rest, id) == Parsed(Ok(Some(f)), |w|) <==>
              f.fieldId == id && f.data < Pow2(f.len)
  {
    hide ToBits, FromBits, ParseType3Generic, Pow2;
    Type3GenericRoundTrip(id, f.len, Type3Word(f), rest);
    if f.len <= 64 && f.data < Pow2(f.len) {
      Pow2Mono(f.len, 64);
    }
  }

  /**
    Exactly when a generic Type-3 parse stops the process: the element is longer
    than the 128 bits it keeps, those are there, and the rest is not. Every other
    truncation is reported as an error.
   */
  lemma Type3GenericPanics(s: seq<bool>, id: nat)
    ensures ParseType3Generic(true, s, id).out.Panic? <==>
            && PeekId(s, id) == Ok(true)
            && |s| >= 16 + 128
            && |s| < 16 + FromBits(s[5..16])
  {
    hide FromBits;
    if PeekId(s, id) == Ok(true) && |s| >= 16 {
      var kept := Min(FromBits(s[5..16]), 128);
    }
  }

  /** An element announced with 129 bits of which 128 are there. */
  lemma TruncatedType3Panics(id: nat)
    requires id < 16
    ensures var s := Header(id) + ToBits(129, 11) + seq(128, _ => false);
            ParseType3Generic(true, s, id) == Parsed(Panic, 144)
  {
    hide ToBits, FromBits, PeekId, Header;
    var body := seq(128, _ => false);
    EncHeader(id, 129, body, Header(id) + ToBits(129, 11) + body);
  }

  /** The writer puts down the caller's identifier, whatever the element says: the wrong one comes back. */
  lemma WrongIdentifierLost(rest: seq<bool>)
    ensures var w := EncType3(5, ToBits(Type3Word(Type3(4, 1, 1)), 1));
            ParseType3Generic(true, w + rest, 5) == Parsed(Ok(Some(Type3(5, 1, 1))), |w|)
  {
    hide ToBits, ParseType3Generic;
    Pow2Mono(1, 64);
    ModUnique(1, Pow2(64), 0, 1);
    Type3GenericRoundTrip(5, 1, 1, rest);
  }

  /** Bits of a short element beyond the low 64 are dropped without an error. */
  lemma HighBitsLost(rest: seq<bool>)
    ensures var w := EncType3(5, ToBits(Type3Word(Type3(5, 1, Pow2(64) + 1)), 1));
            ParseType3Generic(true, w + rest, 5) == Parsed(Ok(Some(Type3(5, 1, 1))), |w|)
  {
    hide ToBits, ParseType3Generic;
    Pow2Mono(1, 64);
    ModUnique(Pow2(64) + 1, Pow2(64), 1, 1);
    Type3GenericRoundTrip(5, 1, 1, rest);
  }

  lemma Type3StructRoundTrip<T(!new)>(id: nat, x: T, c: Codec<T>, rest: seq<bool>)
    requires id < 16 && ReadsBack(c) && c.enc(x).ok && |c.enc(x).bits| < 2048
    ensures var w := EncType3(id, c.enc(x).bits);
            ParseType3Struct(true, w + rest, id, c.dec) == Parsed(Ok(Some(x)), |w|)
  {
    hide ToBits, FromBits, PeekId;
    var p := c.enc(x).bits;
    EncHeader(id, |p|, p + rest, EncType3(id, p) + rest);
    assert EncType3(id, p) + rest == Header(id) + ToBits(|p|, 11) + (p + rest);
  }

  lemma Type3StructCanonical<T(!new)>(id: nat, s: seq<bool>, c: Codec<T>)
    requires Canonical(c) && Bounded(c.dec)
    requires ParseType3Struct(true, s, id, c.dec).out.Ok? && ParseType3Struct(true, s, id, c.dec).out.value.Some?
    ensures var r := ParseType3Struct(true, s, id, c.dec); var w := c.enc(r.out.value.value);
            id < 16 && w.ok && |w.bits| < 2048 && r.used <= |s| && EncType3(id, w.bits) == s[..r.used]
  {
    hide ToBits, FromBits, PeekId;
    PeekedHeader(id, s);
    var r := c.dec(s[16..]);
    assert s[..16 + r.used] == s[..16] + s[16..][..r.used];
  }

  lemma {:induction false} ManyRoundTrip<T(!new)>(c: Codec<T>, xs: seq<T>, rest: seq<bool>)
    requires ReadsBack(c) && EncMany(c.enc, xs).ok
    ensures ParseMany(c.dec, EncMany(c.enc, xs).bits + rest, |xs|) == Parsed(Ok(xs), |EncMany(c.enc, xs).bits|)
  {
    if xs == [] {
    } else {
      var b, q := c.enc(xs[0]).bits, EncMany(c.enc, xs[1..]).bits;
      assert EncMany(c.enc, xs).bits + rest == b + (q + rest);
      assert (b + (q + rest))[|b|..] == q + rest;
      ManyRoundTrip(c, xs[1..], rest);
      assert [xs[0]] + xs[1..] == xs;
    }
  }

  lemma {:induction false} ManyCanonical<T(!new)>(c: Codec<T>, s: seq<bool>, count: nat)
    requires Canonical(c) && Bounded(c.dec) && ParseMany(c.dec, s, count).out.Ok?
    ensures var r := ParseMany(c.dec, s, count);
            |r.out.value| == count && r.used <= |s| && EncMany(c.enc, r.out.value) == Written(s[..r.used], None)
  {
    hide Canonical, Bounded, EncMany;
    if count == 0 {
      EncFirst(c.enc, []);
    } else {
      var r := c.dec(s);
      ElementCanonical(c, s);
      ManyCanonical(c, s[r.used..], count - 1);
      var q := ParseMany(c.dec, s[r.used..], count - 1);
      EncFirst(c.enc, [r.out.value] + q.out.value);
      assert ([r.out.value] + q.out.value)[1..] == q.out.value;
      assert s[..r.used + q.used] == s[..r.used] + s[r.used..][..q.used];
    }
  }

  lemma ElementCanonical<T(!new)>(c: Codec<T>, s: seq<bool>)
    requires Canonical(c) && Bounded(c.dec) && c.dec(s).out.Ok?
    ensures c.dec(s).used <= |s| && c.enc(c.dec(s).out.value) == Written(s[..c.dec(s).used], None)
  {
  }

  lemma EncFirst<T>(enc: T -> Written, xs: seq<T>)
    ensures xs == [] ==> EncMany(enc, xs) == Written([], None)
    ensures xs != [] && enc(xs[0]).ok ==>
              EncMany(enc, xs) == Written(enc(xs[0]).bits + EncMany(enc, xs[1..]).bits, EncMany(enc, xs[1..]).err)
  {
  }

  /** Header, length and count of a Type-4 element, written and read back. */
  lemma Type4HeaderRoundTrip(id: nat, count: nat, payload: seq<bool>, rest: seq<bool>)
    requires id < 16 && 1 <= count <= 63 && |payload| + 6 <= 2047
    ensures var s := EncType4(id, count, payload) + rest;
            && ParseType4Header(s, id) == Parsed(Ok(Some((count, |payload|))), 22)
            && |s| >= 22 && s[22..] == payload + rest
  {
    hide ToBits, FromBits, PeekId;
    var s := EncType4(id, count, payload) + rest;
    EncHeader(id, |payload| + 6, ToBits(count, 6) + payload + rest, s);
    assert s == Header(id) + ToBits(|payload| + 6, 11) + (ToBits(count, 6) + payload + rest);
    assert s[16..22] == ToBits(count, 6);
    Pow2Of11();
    FromToBits(count, 6);
  }

  lemma HeaderUsed(s: seq<bool>, id: nat)
    requires ParseType4Header(s, id).out.Ok? && ParseType4Header(s, id).out.value.Some?
    ensures ParseType4Header(s, id).used == 22 <= |s|
  {
    hide FromBits, PeekId;
  }

  lemma Type4HeaderCanonical(id: nat, s: seq<bool>)
    requires ParseType4Header(s, id).out.Ok? && ParseType4Header(s, id).out.value.Some?
    ensures var (count, len) := ParseType4Header(s, id).out.value.value;
            && id < 16 && 1 <= count <= 63 && len + 6 <= 2047 && |s| >= 22
            && s[..22] == Header(id) + ToBits(len + 6, 11) + ToBits(count, 6)
  {
    hide ToBits, FromBits, PeekId;
    PeekedHeader(id, s);
    Pow2Of11();
    FromBitsBound(s[16..22]);
    ToFromBits(s[16..22]);
    assert s[..22] == s[..16] + s[16..22];
  }

  /** Any 1 to 63 elements whose payload fits come back, and the parser consumes exactly the stated length. */
  lemma Type4StructRoundTrip<T(!new)>(id: nat, xs: seq<T>, c: Codec<T>, rest: seq<bool>)
    requires id < 16 && 1 <= |xs| <= 63 && ReadsBack(c)
    requires EncMany(c.enc, xs).ok && |EncMany(c.enc, xs).bits| + 6 <= 2047
    ensures var w := EncType4(id, |xs|, EncMany(c.enc, xs).bits);
            ParseType4Struct(true, w + rest, id, c.dec) == Parsed(Ok(Some(xs)), |w|)
  {
    hide ParseType4Header;
    Type4HeaderRoundTrip(id, |xs|, EncMany(c.enc, xs).bits, rest);
    ManyRoundTrip(c, xs, rest);
  }

  lemma Type4StructCanonical<T(!new)>(id: nat, s: seq<bool>, c: Codec<T>)
    requires Canonical(c) && Bounded(c.dec)
    requires ParseType4Struct(true, s, id, c.dec).out.Ok? && ParseType4Struct(true, s, id, c.dec).out.value.Some?
    ensures var r := ParseType4Struct(true, s, id, c.dec); var xs := r.out.value.value; var w := EncMany(c.enc, xs);
            && id < 16 && 1 <= |xs| <= 63 && w.ok && |w.bits| + 6 <= 2047
            && r.used <= |s| && EncType4(id, |xs|, w.bits) == s[..r.used]
  {
    hide ToBits, Header, ParseType4Header, ParseMany, EncMany;
    HeaderUsed(s, id);
    Type4HeaderCanonical(id, s);
    var (count, len) := ParseType4Header(s, id).out.value.value;
    ManyCanonical(c, s[22..], count);
    assert s[..22 + len] == s[..22] + s[22..][..len];
  }

  /**
    The generic Type-4 writer accepts an element count of 0, which the parser rejects:
    what it wrote comes back if and only if the count is not 0.
   */
  lemma Type4GenericRoundTrip(f: Type4, rest: seq<bool>)
    requires f.fieldId < 16 && f.len <= 64 && f.elems <= 63 && f.data < Pow2(f.len)
    ensures var w := EncType4(f.fieldId, f.elems, ToBits(f.data, f.len));
            ParseType4Generic(true, w + rest, f.fieldId) == Parsed(Ok(Some(f)), |w|) <==> f.elems != 0
    ensures var s := EncType4(f.fieldId, f.elems, ToBits(f.data, f.len)) + rest;
            f.elems == 0 ==> ParseType4Generic(true, s, f.fieldId) == Parsed(Err(InvalidValue(0)), 22)
  {
    hide ToBits, FromBits, PeekId;
    var p := ToBits(f.data, f.len);
    var s := EncType4(f.fieldId, f.elems, p) + rest;
    if f.elems != 0 {
      Type4HeaderRoundTrip(f.fieldId, f.elems, p, rest);
      assert (p + rest)[..f.len] == p;
      FromToBits(f.data, f.len);
    } else {
      EncHeader(f.fieldId, f.len + 6, ToBits(0, 6) + p + rest, s);
      assert s == Header(f.fieldId) + ToBits(f.len + 6, 11) + (ToBits(0, 6) + p + rest);
      assert s[16..22] == ToBits(0, 6);
      Pow2Of11();
      FromToBits(0, 6);
    }
  }

  /** The same for a generic Type-4 parse, which keeps 64 bits. */
  lemma Type4GenericPanics(s: seq<bool>, id: nat)
    ensures ParseType4Generic(true, s, id).out.Panic? <==>
            && PeekId(s, id) == Ok(true)
            && |s| >= 22 + 64
            && FromBits(s[16..22]) > 0
            && |s| < 16 + FromBits(s[5..16])
  {
    hide FromBits;
  }

  /** One element of 65 bits announced, of which 64 are there. */
  lemma TruncatedType4Panics(id: nat)
    requires id < 16
    ensures var s := Header(id) + ToBits(71, 11) + ToBits(1, 6) + seq(64, _ => false);
            ParseType4Generic(true, s, id) == Parsed(Panic, 86)
  {
    hide ToBits, FromBits, PeekId, Header;
    var tail := ToBits(1, 6) + seq(64, _ => false);
    var s := Header(id) + ToBits(71, 11) + ToBits(1, 6) + seq(64, _ => false);
    assert s == Header(id) + ToBits(71, 11) + tail;
    EncHeader(id, 71, tail, s);
    assert s[16..22] == ToBits(1, 6);
    Pow2Of11();
    FromToBits(1, 6);
  }

  lemma Type4GenericCanonical(id: nat, s: seq<bool>)
    requires ParseType4Generic(true, s, id).out.Ok? && ParseType4Generic(true, s, id).out.value.Some?
    requires ParseType4Generic(true, s, id).out.value.value.len <= 64
    ensures var r := ParseType4Generic(true, s, id); var f := r.out.value.value;
            && f.fieldId == id && id < 16 && 1 <= f.elems <= 63 && f.data < Pow2(f.len)
            && r.used <= |s| && EncType4(id, f.elems, ToBits(f.data, f.len)) == s[..r.used]
  {
    hide ToBits, FromBits, Header, ParseType4Header;
    HeaderUsed(s, id);
    Type4HeaderCanonical(id, s);
    var (count, len) := ParseType4Header(s, id).out.value.value;
    FromBitsBound(s[22..][..len]);
    ToFromBits(s[22..][..len]);
    assert s[..22 + len] == s[..22] + s[22..][..len];
  }

  // ---------------------------------------------------------------- the bits on the air

  /** p-bit, then the value. */
  lemma Type2Wire(v: nat, n: nat)
    requires v < Pow2(n)
    ensures EncType2(None, n) == [false]
    ensures var w := EncType2(Some(v), n); |w| == 1 + n && w[0] && FromBits(w[1..]) == v
  {
    hide ToBits, FromBits;
    FromToBits(v, n);
    assert EncType2(Some(v), n)[1..] == ToBits(v, n);
  }

  /** m-bit, 4-bit identifier, 11-bit length of the payload, payload. */
  lemma Type3Wire(id: nat, payload: seq<bool>)
    requires id < 16 && |payload| < 2048
    ensures var w := EncType3(id, payload);
            && |w| == 16 + |payload| && w[0]
            && FromBits(w[1..5]) == id && FromBits(w[5..16]) == |payload| && w[16..] == payload
  {
    hide ToBits, FromBits;
    var w := EncType3(id, payload);
    Pow2Of11();
    FromToBits(id, 4);
    FromToBits(|payload|, 11);
    assert w[1..5] == ToBits(id, 4) && w[5..16] == ToBits(|payload|, 11);
  }

  /** m-bit, 4-bit identifier, 11-bit length that counts the 6 bits of the element count too, count, payload. */
  lemma Type4Wire(id: nat, count: nat, payload: seq<bool>)
    requires id < 16 && count < 64 && |payload| + 6 < 2048
    ensures var w := EncType4(id, count, payload);
            && |w| == 22 + |payload| && w[0]
            && FromBits(w[1..5]) == id && FromBits(w[5..16]) == |payload| + 6
            && FromBits(w[16..22]) == count && w[22..] == payload
  {
    hide ToBits, FromBits;
    var w := EncType4(id, count, payload);
    Pow2Of11();
    FromToBits(id, 4);
    FromToBits(|payload| + 6, 11);
    FromToBits(count, 6);
    assert w[1..5] == ToBits(id, 4) && w[5..16] == ToBits(|payload| + 6, 11) && w[16..22] == ToBits(count, 6);
  }

  // ---------------------------------------------------------------- what is cut off, and where the cursor is left

  lemma CutType2(v: nat, n: nat, k: nat)
    requires n <= 64 && k < 1 + n
    ensures ParseType2(true, EncType2(Some(v), n)[..k], n) == Parsed(Err(BufferEnded), if k == 0 then 0 else 1)
  {
    hide ToBits, FromBits;
  }

  /** A header cut off before its end is reported; after identifier and m-bit the cursor has moved past those. */
  lemma CutHeader<T>(id: nat, len: nat, k: nat, dec: seq<bool> -> Parsed<T>)
    requires id < 16 && len < 2048 && k < 16
    ensures var s, at := (Header(id) + ToBits(len, 11))[..k], if k < 5 then 0 else 5;
            && ParseType3Generic(true, s, id) == Parsed(Err(BufferEnded), at)
            && ParseType3Struct(true, s, id, dec) == Parsed(Err(BufferEnded), at)
            && ParseType4Generic(true, s, id) == Parsed(Err(BufferEnded), at)
            && ParseType4Struct(true, s, id, dec) == Parsed(Err(BufferEnded), at)
            && ParseType2Struct(true, [], dec) == Parsed(Err(BufferEnded), 0)
  {
    hide ToBits, FromBits;
    var s := (Header(id) + ToBits(len, 11))[..k];
    if k >= 5 {
      assert Header(id) <= s;
      HeaderPeeks(id, id, s);
    } else if k > 0 {
      assert s[0];
    }
  }

  /**
    A generic Type-3 element cut off in its payload: reported while less than the kept 128 bits are there, with
    the cursor after the high half if that was read; otherwise the skip past the end stops the process.
   */
  lemma CutType3(id: nat, payload: seq<bool>, k: nat)
    requires id < 16 && |payload| < 2048 && k < |payload|
    ensures var p := ParseType3Generic(true, EncType3(id, payload)[..16 + k], id);
            if k >= 128 then p == Parsed(Panic, 16 + 128)
            else
              var kept := if |payload| < 128 then |payload| else 128;
              p == Parsed(Err(BufferEnded), 16 + if kept > 64 && k >= kept - 64 then kept - 64 else 0)
  {
    hide ToBits, FromBits, PeekId, Header;
    var s := EncType3(id, payload)[..16 + k];
    assert s == Header(id) + ToBits(|payload|, 11) + payload[..k];
    EncHeader(id, |payload|, payload[..k], s);
  }

  lemma CutType4(id: nat, count: nat, payload: seq<bool>, k: nat)
    requires id < 16 && 1 <= count < 64 && |payload| + 6 < 2048 && 16 <= k < 22 + |payload|
    ensures var p := ParseType4Generic(true, EncType4(id, count, payload)[..k], id);
            p == if k < 22 then Parsed(Err(BufferEnded), 16)
                 else if k >= 22 + 64 then Parsed(Panic, 22 + 64)
                 else Parsed(Err(BufferEnded), 22)
  {
    hide ToBits, FromBits, PeekId, Header;
    var s := EncType4(id, count, payload)[..k];
    var tail := (ToBits(count, 6) + payload)[..k - 16];
    assert EncType4(id, count, payload) == Header(id) + ToBits(|payload| + 6, 11) + (ToBits(count, 6) + payload);
    assert s == Header(id) + ToBits(|payload| + 6, 11) + tail;
    EncHeader(id, |payload| + 6, tail, s);
    if k >= 22 {
      assert s[16..22] == ToBits(count, 6);
      Pow2Of11();
      FromToBits(count, 6);
    }
  }

  // ---------------------------------------------------------------- what is too long to keep

  /** A longer Type-3 element is consumed whole; its first 128 bits are kept, with its true length. */
  lemma LongType3(id: nat, payload: seq<bool>, rest: seq<bool>)
    requires id < 16 && 128 < |payload| < 2048
    ensures ParseType3Generic(true, EncType3(id, payload) + rest, id) ==
            Parsed(Ok(Some(Type3(id, |payload|, FromBits(payload[..128])))), 16 + |payload|)
  {
    hide ToBits, FromBits, PeekId, Header;
    var s := EncType3(id, payload) + rest;
    assert s == Header(id) + ToBits(|payload|, 11) + (payload + rest);
    EncHeader(id, |payload|, payload + rest, s);
    assert (payload + rest)[..128] == payload[..128];
  }

  /** A longer Type-4 element is consumed whole; its first 64 bits are kept, with its true length and count. */
  lemma LongType4(id: nat, count: nat, payload: seq<bool>, rest: seq<bool>)
    requires id < 16 && 1 <= count <= 63 && 64 < |payload| <= 2041
    ensures ParseType4Generic(true, EncType4(id, count, payload) + rest, id) ==
            Parsed(Ok(Some(Type4(id, |payload|, count, FromBits(payload[..64])))), 22 + |payload|)
  {
    hide ToBits, FromBits, PeekId, Header, ParseType4Header;
    Type4HeaderRoundTrip(id, count, payload, rest);
    assert (payload + rest)[..64] == payload[..64];
  }

  // ---------------------------------------------------------------- what is rejected

  /** A length too short for the element count, or a count of 0, is rejected after the header, by both parsers. */
  lemma Type4HeaderRejects<T>(id: nat, len: nat, count: nat, rest: seq<bool>, dec: seq<bool> -> Parsed<T>)
    requires id < 16 && len < 2048 && count < 64 && (len < 6 || count == 0)
    ensures var s := Header(id) + ToBits(len, 11) + ToBits(count, 6) + rest;
            var e := if len < 6 then InconsistentLength(6, len) else InvalidValue(0);
            && ParseType4Generic(true, s, id) == Parsed(Err(e), 22)
            && ParseType4Struct(true, s, id, dec) == Parsed(Err(e), 22)
  {
    hide ToBits, FromBits, PeekId, Header;
    var tail, s := ToBits(count, 6) + rest, Header(id) + ToBits(len, 11) + ToBits(count, 6) + rest;
    assert s == Header(id) + ToBits(len, 11) + tail;
    EncHeader(id, len, tail, s);
    assert s[16..22] == ToBits(count, 6);
    Pow2Of11();
    FromToBits(count, 6);
  }

  /** A length field that differs from what the element parser consumed is rejected after the element. */
  lemma WrongLengthRejected<T(!new)>(id: nat, x: T, len: nat, c: Codec<T>, rest: seq<bool>)
    requires id < 16 && len < 2048 && ReadsBack(c) && c.enc(x).ok && len != |c.enc(x).bits|
    ensures var p := c.enc(x).bits;
            ParseType3Struct(true, Header(id) + ToBits(len, 11) + p + rest, id, c.dec) ==
              Parsed(Err(InconsistentLength(len, |p|)), 16 + |p|)
  {
    hide ToBits, FromBits, PeekId, Header;
    var p := c.enc(x).bits;
    var s := Header(id) + ToBits(len, 11) + p + rest;
    assert s == Header(id) + ToBits(len, 11) + (p + rest);
    EncHeader(id, len, p + rest, s);
  }

  lemma WrongLengthRejected4<T(!new)>(id: nat, xs: seq<T>, len: nat, c: Codec<T>, rest: seq<bool>)
    requires id < 16 && 6 <= len < 2048 && 1 <= |xs| <= 63 && ReadsBack(c)
    requires EncMany(c.enc, xs).ok && len - 6 != |EncMany(c.enc, xs).bits|
    ensures var p := EncMany(c.enc, xs).bits;
            ParseType4Struct(true, Header(id) + ToBits(len, 11) + ToBits(|xs|, 6) + p + rest, id, c.dec) ==
              Parsed(Err(InconsistentLength(len - 6, |p|)), 22 + |p|)
  {
    hide ToBits, FromBits, PeekId, Header, EncMany, ParseMany;
    var p := EncMany(c.enc, xs).bits;
    var tail, s := ToBits(|xs|, 6) + p + rest, Header(id) + ToBits(len, 11) + ToBits(|xs|, 6) + p + rest;
    assert s == Header(id) + ToBits(len, 11) + tail;
    EncHeader(id, len, tail, s);
    assert s[16..22] == ToBits(|xs|, 6);
    Pow2Of11();
    FromToBits(|xs|, 6);
    assert s[22..] == p + rest;
    ManyRoundTrip(c, xs, rest);
  }

  /** An element parser's own error, or its panic, ends the enclosing parser the same way, where it left the cursor. */
  lemma ElementFailurePasses<T>(id: nat, len: nat, t: seq<bool>, dec: seq<bool> -> Parsed<T>)
    requires id < 16 && len < 2048 && !dec(t).out.Ok?
    ensures var s, u := Header(id) + ToBits(len, 11) + t, dec(t).used;
            && SameFailure(dec(t).out, ParseType2Struct(true, [true] + t, dec).out)
            && ParseType2Struct(true, [true] + t, dec).used == 1 + u
            && SameFailure(dec(t).out, ParseType3Struct(true, s, id, dec).out)
            && ParseType3Struct(true, s, id, dec).used == 16 + u
  {
    hide ToBits, FromBits, PeekId, Header;
    assert ([true] + t)[1..] == t;
    EncHeader(id, len, t, Header(id) + ToBits(len, 11) + t);
  }

  lemma ElementFailurePasses4<T>(id: nat, len: nat, count: nat, t: seq<bool>, dec: seq<bool> -> Parsed<T>)
    requires id < 16 && 6 <= len < 2048 && 1 <= count <= 63 && !ParseMany(dec, t, count).out.Ok?
    ensures var q := ParseMany(dec, t, count);
            var r := ParseType4Struct(true, Header(id) + ToBits(len, 11) + ToBits(count, 6) + t, id, dec);
            SameFailure(q.out, r.out) && r.used == 22 + q.used
  {
    hide ToBits, FromBits, PeekId, Header, ParseMany;
    var tail, s := ToBits(count, 6) + t, Header(id) + ToBits(len, 11) + ToBits(count, 6) + t;
    assert s == Header(id) + ToBits(len, 11) + tail;
    EncHeader(id, len, tail, s);
    assert s[16..22] == ToBits(count, 6);
    Pow2Of11();
    FromToBits(count, 6);
    assert s[22..] == t;
  }

  predicate SameFailure<A, B>(a: Outcome<A>, b: Outcome<B>) {
    (a.Err? && b.Err? && a.error == b.error) || (a.Panic? && b.Panic?)
  }

  /** Of repeated elements, the first that fails ends the list with its error. */
  lemma {:induction false} FirstFailureEnds<T>(dec: seq<bool> -> Parsed<T>, s: seq<bool>, k: nat, count: nat)
    requires Bounded(dec) && k < count && ParseMany(dec, s, k).out.Ok?
    requires ParseMany(dec, s, k).used <= |s| && !dec(s[ParseMany(dec, s, k).used..]).out.Ok?
    ensures var u := ParseMany(dec, s, k).used;
            && SameFailure(dec(s[u..]).out, ParseMany(dec, s, count).out)
            && ParseMany(dec, s, count).used == u + dec(s[u..]).used
    decreases k
  {
    hide Bounded;
    var u := ParseMany(dec, s, k).used;
    if k == 0 {
      assert s[0..] == s;
    } else {
      var r := dec(s);
      assert r.used <= |s| by { StaysInside(dec, s); }
      assert s[u..] == s[r.used..][u - r.used..];
      FirstFailureEnds(dec, s[r.used..], k - 1, count - 1);
    }
  }

  lemma StaysInside<T>(dec: seq<bool> -> Parsed<T>, s: seq<bool>)
    requires Bounded(dec)
    ensures dec(s).used <= |s|
  {
  }

  /** Of written elements, the first that fails ends the payload: its error, after all bits up to its own. */
  lemma {:induction false} FirstWriteFailureEnds<T>(enc: T -> Written, xs: seq<T>, k: nat)
    requires k < |xs| && EncMany(enc, xs[..k]).ok && !enc(xs[k]).ok
    ensures EncMany(enc, xs) == Written(EncMany(enc, xs[..k]).bits + enc(xs[k]).bits, enc(xs[k]).err)
    decreases k
  {
    hide EncMany;
    EncFirst(enc, xs[..k]);
    EncFirst(enc, xs);
    if k == 0 {
      EncFails(enc, xs);
    } else {
      assert xs[..k][1..] == xs[1..][..k - 1] && xs[..k][0] == xs[0];
      assert enc(xs[0]).ok by { if !enc(xs[0]).ok { EncFails(enc, xs[..k]); } }
      FirstWriteFailureEnds(enc, xs[1..], k - 1);
    }
  }

  lemma EncFails<T>(enc: T -> Written, xs: seq<T>)
    requires xs != [] && !enc(xs[0]).ok
    ensures EncMany(enc, xs) == enc(xs[0])
  {
  }
}
