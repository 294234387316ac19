/**
  The whole optional part of a PDU: o-bit, Type-2 elements, Type-3 and Type-4
  elements in a fixed order, terminating m-bit. The `to_bitbuf` and `from_bitbuf`
  of a PDU that ends in an m-bit, as those of MM and CMCE do, are one such list of
  calls. Most MLE PDUs have an o-bit and Type-2 elements and no m-bit; they come at
  the end of this module. The laws hold for any list.
 */
module OptionalPart {
  import opened Words
  import opened Wrappers
  import opened TypedFields

  /** How a Type-2 element is coded, and its value. */
  datatype Shape2<!T> = Word2(width: nat) | Struct2(codec: Codec<T>)
  datatype Value2<+T> = WordValue(word: Option<nat>) | StructValue(elem: Option<T>) {
    predicate Present() { if WordValue? then word.Some? else elem.Some? }
  }

  /** How a Type-3 or Type-4 element is coded, and its value. */
  datatype Shape34<!T> =
    | Generic3(id: nat)
    | Struct3(id: nat, codec: Codec<T>)
    | Generic4(id: nat)
    | Struct4(id: nat, codec: Codec<T>)
  datatype Value34<+T> =
    | Generic3Value(g3: Option<Type3>)
    | Struct3Value(s3: Option<T>)
    | Generic4Value(g4: Option<Type4>)
    | Struct4Value(s4: Option<seq<T>>)
  {
    predicate Present() {
      match this
      case Generic3Value(v) => v.Some?
      case Struct3Value(v) => v.Some?
      case Generic4Value(v) => v.Some?
      case Struct4Value(v) => v.Some?
    }
  }

  // ---------------------------------------------------------------- one element

  /** The value can be written under this shape and the codec reads back what it wrote. */
  ghost predicate Fits2<T(!new)>(sh: Shape2<T>, v: Value2<T>) {
    match (sh, v)
    case (Word2(n), WordValue(w)) => n <= 64 && (w.Some? ==> w.value < Pow2(n))
    case (Struct2(c), StructValue(x)) => ReadsBack(c) && (x.Some? ==> c.enc(x.value).ok)
    case _ => false
  }

  function Enc2<T>(sh: Shape2<T>, v: Value2<T>): seq<bool> {
    match (sh, v)
    case (Word2(n), WordValue(w)) => EncType2(w, n)
    case (Struct2(c), StructValue(x)) => EncType2Struct(x, c.enc).bits
    case _ => []
  }

  function Parse2<T>(obit: bool, sh: Shape2<T>, s: seq<bool>): Parsed<Value2<T>> {
    match sh
    case Word2(n) =>
      var r := ParseType2(obit, s, n);
      Parsed(Map(r.out, (v: Option<nat>) => WordValue(v)), r.used)
    case Struct2(c) =>
      var r := ParseType2Struct(obit, s, c.dec);
      Parsed(Map(r.out, (v: Option<T>) => StructValue(v)), r.used)
  }

  function Map<A, B>(o: Outcome<A>, f: A -> B): Outcome<B> {
    match o
    case Ok(v) => Ok(f(v))
    case Err(e) => Err(e)
    case Panic => Panic
  }

  ghost predicate Fits34<T(!new)>(sh: Shape34<T>, v: Value34<T>) {
    && sh.id < 16
    && match (sh, v) {
         case (Generic3(id), Generic3Value(o)) =>
           o.Some? ==> o.value.fieldId == id && o.value.len <= 128 && o.value.data < Pow2(o.value.len)
         case (Struct3(_, c), Struct3Value(o)) =>
           ReadsBack(c) && (o.Some? ==> c.enc(o.value).ok && |c.enc(o.value).bits| < 2048)
         case (Generic4(id), Generic4Value(o)) =>
           o.Some? ==>
             && o.value.fieldId == id && o.value.len <= 64
             && 1 <= o.value.elems <= 63 && o.value.data < Pow2(o.value.len)
         case (Struct4(_, c), Struct4Value(o)) =>
           && ReadsBack(c)
           && (o.Some? ==>
                 && 1 <= |o.value| <= 63
                 && EncMany(c.enc, o.value).ok && |EncMany(c.enc, o.value).bits| + 6 <= 2047)
         case _ => false
       }
  }

  /** Absent elements leave no trace. */
  function Enc34<T>(sh: Shape34<T>, v: Value34<T>): seq<bool> {
    match (sh, v)
    case (Generic3(id), Generic3Value(Some(f))) => EncType3(id, ToBits(f.data, f.len))
    case (Struct3(id, c), Struct3Value(Some(x))) => EncType3(id, c.enc(x).bits)
    case (Generic4(id), Generic4Value(Some(f))) => EncType4(id, f.elems, ToBits(f.data, f.len))
    case (Struct4(id, c), Struct4Value(Some(xs))) => EncType4(id, |xs|, EncMany(c.enc, xs).bits)
    case _ => []
  }

  function Parse34<T>(obit: bool, sh: Shape34<T>, s: seq<bool>): Parsed<Value34<T>> {
    match sh
    case Generic3(id) =>
      var r := ParseType3Generic(obit, s, id);
      Parsed(Map(r.out, (v: Option<Type3>) => Generic3Value(v)), r.used)
    case Struct3(id, c) =>
      var r := ParseType3Struct(obit, s, id, c.dec);
      Parsed(Map(r.out, (v: Option<T>) => Struct3Value(v)), r.used)
    case Generic4(id) =>
      var r := ParseType4Generic(obit, s, id);
      Parsed(Map(r.out, (v: Option<Type4>) => Generic4Value(v)), r.used)
    case Struct4(id, c) =>
      var r := ParseType4Struct(obit, s, id, c.dec);
      Parsed(Map(r.out, (v: Option<seq<T>>) => Struct4Value(v)), r.used)
  }

  lemma RoundTrip2<T(!new)>(sh: Shape2<T>, v: Value2<T>, rest: seq<bool>)
    requires Fits2(sh, v)
    ensures Parse2(true, sh, Enc2(sh, v) + rest) == Parsed(Ok(v), |Enc2(sh, v)|)
  {
    hide EncType2, ParseType2, EncType2Struct, ParseType2Struct;
    match sh
    case Word2(n) => Type2RoundTrip(v.word, n, rest);
    case Struct2(c) =>
      assert EncType2Struct(v.elem, c.enc).ok by { StructOk(v.elem, c); }
      Type2StructRoundTrip(v.elem, c, rest);
  }

  lemma StructOk<T>(o: Option<T>, c: Codec<T>)
    requires o.Some? ==> c.enc(o.value).ok
    ensures EncType2Struct(o, c.enc).ok
  {
  }

  lemma RoundTrip34<T(!new)>(sh: Shape34<T>, v: Value34<T>, rest: seq<bool>)
    requires Fits34(sh, v) && v.Present()
    ensures Parse34(true, sh, Enc34(sh, v) + rest) == Parsed(Ok(v), |Enc34(sh, v)|)
    ensures Header(sh.id) <= Enc34(sh, v)
  {
    hide ToBits, EncMany, ParseType3Generic, ParseType3Struct, ParseType4Generic, ParseType4Struct;
    match sh
    case Generic3(id) => Type3GenericRoundTrip(id, v.g3.value.len, v.g3.value.data, rest);
    case Struct3(id, c) => Type3StructRoundTrip(id, v.s3.value, c, rest);
    case Generic4(id) => Type4GenericRoundTrip(v.g4.value, rest);
    case Struct4(id, c) => Type4StructRoundTrip(id, v.s4.value, c, rest);
  }

  /** A value of this shape that says "absent". */
  function Absent34<T>(sh: Shape34<T>): Value34<T> {
    match sh
    case Generic3(_) => Generic3Value(None)
    case Struct3(_, _) => Struct3Value(None)
    case Generic4(_) => Generic4Value(None)
    case Struct4(_, _) => Struct4Value(None)
  }

  function Absent2<T>(sh: Shape2<T>): Value2<T> {
    match sh
    case Word2(_) => WordValue(None)
    case Struct2(_) => StructValue(None)
  }

  /** When another element, or the terminating m-bit, comes next, the parser reports "absent" and stays put. */
  lemma SkipsAbsent34<T>(sh: Shape34<T>, s: seq<bool>)
    requires PeekId(s, sh.id) == Ok(false)
    ensures Parse34(true, sh, s) == Parsed(Ok(Absent34(sh)), 0)
  {
    hide PeekId;
  }

  /** Conversely, a parser that reports "absent" has not moved and saw no element of its own. */
  lemma AbsentStays34<T>(sh: Shape34<T>, s: seq<bool>)
    requires Parse34(true, sh, s).out.Ok? && !Parse34(true, sh, s).out.value.Present()
    ensures Parse34(true, sh, s) == Parsed(Ok(Absent34(sh)), 0) && PeekId(s, sh.id) == Ok(false)
  {
    hide PeekId, ParseMany;
  }

  /** With a clear o-bit every parser, whatever follows, says that its element is absent and stays put. */
  lemma ClearObit2<T>(sh: Shape2<T>, s: seq<bool>)
    ensures Parse2(false, sh, s) == Parsed(Ok(Absent2(sh)), 0)
  {
  }

  lemma ClearObit34<T>(sh: Shape34<T>, s: seq<bool>)
    ensures Parse34(false, sh, s) == Parsed(Ok(Absent34(sh)), 0)
  {
  }

  // ---------------------------------------------------------------- lists of elements

  function EncAll2<T>(shs: seq<Shape2<T>>, vs: seq<Value2<T>>): seq<bool>
    requires |shs| == |vs|
  {
    if shs == [] then [] else Enc2(shs[0], vs[0]) + EncAll2(shs[1..], vs[1..])
  }

  function EncAll34<T>(shs: seq<Shape34<T>>, vs: seq<Value34<T>>): seq<bool>
    requires |shs| == |vs|
  {
    if shs == [] then [] else Enc34(shs[0], vs[0]) + EncAll34(shs[1..], vs[1..])
  }

  /** The parser of the rest of a list, after its first element consumed `used` bits. */
  function Then<A>(head: Parsed<A>, tail: Parsed<seq<A>>): Parsed<seq<A>>
    requires head.out.Ok?
  {
    match tail.out
    case Ok(vs) => Parsed(Ok([head.out.value] + vs), head.used + tail.used)
    case Err(e) => Parsed(Err(e), head.used + tail.used)
    case Panic => Parsed(Panic, head.used + tail.used)
  }

  function Drop(s: seq<bool>, n: nat): seq<bool> { if n <= |s| then s[n..] else [] }

  function ParseAll2<T>(obit: bool, shs: seq<Shape2<T>>, s: seq<bool>): Parsed<seq<Value2<T>>>
    decreases |shs|
  {
    if shs == [] then Parsed(Ok([]), 0)
    else
      var r := Parse2(obit, shs[0], s);
      match r.out
      case Err(e) => Parsed(Err(e), r.used)
      case Panic => Parsed(Panic, r.used)
      case Ok(_) => Then(r, ParseAll2(obit, shs[1..], Drop(s, r.used)))
  }

  function ParseAll34<T>(obit: bool, shs: seq<Shape34<T>>, s: seq<bool>): Parsed<seq<Value34<T>>>
    decreases |shs|
  {
    if shs == [] then Parsed(Ok([]), 0)
    else
      var r := Parse34(obit, shs[0], s);
      match r.out
      case Err(e) => Parsed(Err(e), r.used)
      case Panic => Parsed(Panic, r.used)
      case Ok(_) => Then(r, ParseAll34(obit, shs[1..], Drop(s, r.used)))
  }

  ghost predicate AllFit2<T(!new)>(shs: seq<Shape2<T>>, vs: seq<Value2<T>>) {
    |shs| == |vs| && forall i :: 0 <= i < |shs| ==> Fits2(shs[i], vs[i])
  }

  ghost predicate AllFit34<T(!new)>(shs: seq<Shape34<T>>, vs: seq<Value34<T>>) {
    |shs| == |vs| && forall i :: 0 <= i < |shs| ==> Fits34(shs[i], vs[i])
  }

  predicate DistinctIds<T>(shs: seq<Shape34<T>>) {
    forall i, j :: 0 <= i < j < |shs| ==> shs[i].id != shs[j].id
  }

  lemma {:induction false} RoundTripAll2<T(!new)>(shs: seq<Shape2<T>>, vs: seq<Value2<T>>, rest: seq<bool>)
    requires AllFit2(shs, vs)
    ensures ParseAll2(true, shs, EncAll2(shs, vs) + rest) == Parsed(Ok(vs), |EncAll2(shs, vs)|)
  {
    hide Fits2, Enc2, Parse2;
    if shs == [] {
    } else {
      var h, t := Enc2(shs[0], vs[0]), EncAll2(shs[1..], vs[1..]);
      assert EncAll2(shs, vs) + rest == h + (t + rest);
      RoundTrip2(shs[0], vs[0], t + rest);
      RoundTripAll2(shs[1..], vs[1..], rest);
      assert Drop(h + (t + rest), |h|) == t + rest;
      assert [vs[0]] + vs[1..] == vs;
    }
  }

  /** What follows an absent element is another element's header or the end of the list. */
  lemma {:induction false} NextIsOther<T(!new)>(shs: seq<Shape34<T>>, vs: seq<Value34<T>>, end: seq<bool>, id: nat)
    requires AllFit34(shs, vs) && (forall i :: 0 <= i < |shs| ==> shs[i].id != id) && PeekId(end, id) == Ok(false)
    ensures PeekId(EncAll34(shs, vs) + end, id) == Ok(false)
  {
    hide Fits34, Enc34, PeekId, Header;
    if shs == [] {
      assert EncAll34(shs, vs) + end == end;
    } else if vs[0].Present() {
      var s := EncAll34(shs, vs) + end;
      RoundTrip34(shs[0], vs[0], []);
      assert Enc34(shs[0], vs[0]) <= s;
      assert shs[0].id < 16 by { FitsId(shs[0], vs[0]); }
      HeaderPeeks(shs[0].id, id, s);
    } else {
      NoTrace(shs[0], vs[0]);
      assert EncAll34(shs, vs) == EncAll34(shs[1..], vs[1..]);
      NextIsOther(shs[1..], vs[1..], end, id);
    }
  }

  lemma EndPeeks(rest: seq<bool>, id: nat)
    ensures PeekId([false] + rest, id) == Ok(false)
  {
  }

  lemma FitsId<T(!new)>(sh: Shape34<T>, v: Value34<T>)
    requires Fits34(sh, v)
    ensures sh.id < 16
    ensures !v.Present() ==> v == Absent34(sh)
  {
  }

  lemma NoTrace<T>(sh: Shape34<T>, v: Value34<T>)
    requires !v.Present()
    ensures Enc34(sh, v) == []
  {
  }

  /** One element at the head of a list, present or absent. */
  lemma HeadRoundTrip34<T(!new)>(sh: Shape34<T>, v: Value34<T>, t: seq<bool>)
    requires Fits34(sh, v) && PeekId(t, sh.id) == Ok(false)
    ensures Parse34(true, sh, Enc34(sh, v) + t) == Parsed(Ok(v), |Enc34(sh, v)|)
  {
    hide Fits34, Enc34, Parse34, PeekId;
    FitsId(sh, v);
    if v.Present() {
      RoundTrip34(sh, v, t);
    } else {
      NoTrace(sh, v);
      assert Enc34(sh, v) + t == t;
      SkipsAbsent34(sh, t);
    }
  }

  /** Nothing in `end` starts an element of the list. */
  predicate EndsList<T>(shs: seq<Shape34<T>>, end: seq<bool>) {
    forall i :: 0 <= i < |shs| ==> PeekId(end, shs[i].id) == Ok(false)
  }

  /** All elements come back, present or absent, and the parsers stop where the list ends. */
  lemma {:induction false} RoundTripAll34<T(!new)>(shs: seq<Shape34<T>>, vs: seq<Value34<T>>, end: seq<bool>)
    requires AllFit34(shs, vs) && DistinctIds(shs) && EndsList(shs, end)
    ensures ParseAll34(true, shs, EncAll34(shs, vs) + end) == Parsed(Ok(vs), |EncAll34(shs, vs)|)
  {
    hide Fits34, Enc34, Parse34, PeekId;
    if shs == [] {
    } else {
      var h, t := Enc34(shs[0], vs[0]), EncAll34(shs[1..], vs[1..]) + end;
      var s := EncAll34(shs, vs) + end;
      assert s == h + t;
      NextIsOther(shs[1..], vs[1..], end, shs[0].id);
      HeadRoundTrip34(shs[0], vs[0], t);
      RoundTripAll34(shs[1..], vs[1..], end);
      assert Drop(s, |h|) == t;
      assert [vs[0]] + vs[1..] == vs;
    }
  }

  // ---------------------------------------------------------------- the optional part

  predicate AnyPresent<T>(v2: seq<Value2<T>>, v34: seq<Value34<T>>) {
    || (exists i :: 0 <= i < |v2| && v2[i].Present())
    || (exists i :: 0 <= i < |v34| && v34[i].Present())
  }

  /** What `to_bitbuf` writes after the Type-1 elements. */
  function EncOptional<T>(s2: seq<Shape2<T>>, s34: seq<Shape34<T>>, v2: seq<Value2<T>>, v34: seq<Value34<T>>): seq<bool>
    requires |s2| == |v2| && |s34| == |v34|
  {
    if AnyPresent(v2, v34) then [true] + EncAll2(s2, v2) + EncAll34(s34, v34) + [false] else [false]
  }

  function AllAbsent2<T>(s2: seq<Shape2<T>>): seq<Value2<T>> {
    seq(|s2|, i requires 0 <= i < |s2| => Absent2(s2[i]))
  }

  function AllAbsent34<T>(s34: seq<Shape34<T>>): seq<Value34<T>> {
    seq(|s34|, i requires 0 <= i < |s34| => Absent34(s34[i]))
  }

  /** The first element that fails ends the list with its own error, where it left the cursor. */
  lemma {:induction false} FirstFailure2<T>(
      shs: seq<Shape2<T>>, sh: Shape2<T>, more: seq<Shape2<T>>, s: seq<bool>)
    requires ParseAll2(true, shs, s).out.Ok? && !Parse2(true, sh, Drop(s, ParseAll2(true, shs, s).used)).out.Ok?
    ensures var a := ParseAll2(true, shs, s); var b := Parse2(true, sh, Drop(s, a.used));
            var r := ParseAll2(true, shs + [sh] + more, s);
            && r.used == a.used + b.used
            && (b.out.Err? ==> r.out == Err(b.out.error)) && (b.out.Panic? ==> r.out == Panic)
  {
    hide Parse2;
    var all := shs + [sh] + more;
    if shs == [] {
      assert all[0] == sh && Drop(s, 0) == s;
    } else {
      var u := Parse2(true, shs[0], s).used;
      assert all[0] == shs[0] && all[1..] == shs[1..] + [sh] + more;
      DropDrop(s, u, ParseAll2(true, shs[1..], Drop(s, u)).used);
      FirstFailure2(shs[1..], sh, more, Drop(s, u));
    }
  }

  lemma {:induction false} FirstFailure34<T>(
      shs: seq<Shape34<T>>, sh: Shape34<T>, more: seq<Shape34<T>>, s: seq<bool>)
    requires ParseAll34(true, shs, s).out.Ok? && !Parse34(true, sh, Drop(s, ParseAll34(true, shs, s).used)).out.Ok?
    ensures var a := ParseAll34(true, shs, s); var b := Parse34(true, sh, Drop(s, a.used));
            var r := ParseAll34(true, shs + [sh] + more, s);
            && r.used == a.used + b.used
            && (b.out.Err? ==> r.out == Err(b.out.error)) && (b.out.Panic? ==> r.out == Panic)
  {
    hide Parse34;
    var all := shs + [sh] + more;
    if shs == [] {
      assert all[0] == sh && Drop(s, 0) == s;
    } else {
      var u := Parse34(true, shs[0], s).used;
      assert all[0] == shs[0] && all[1..] == shs[1..] + [sh] + more;
      DropDrop(s, u, ParseAll34(true, shs[1..], Drop(s, u)).used);
      FirstFailure34(shs[1..], sh, more, Drop(s, u));
    }
  }

  lemma DropDrop(s: seq<bool>, m: nat, n: nat)
    ensures Drop(Drop(s, m), n) == Drop(s, m + n)
  {
  }

  /** So do all of them in turn. */
  lemma {:induction false} ClearObitAll2<T>(shs: seq<Shape2<T>>, s: seq<bool>)
    ensures ParseAll2(false, shs, s) == Parsed(Ok(AllAbsent2(shs)), 0)
  {
    hide Parse2, Absent2;
    if shs == [] {
    } else {
      ClearObit2(shs[0], s);
      ClearObitAll2(shs[1..], Drop(s, 0));
      assert [Absent2(shs[0])] + AllAbsent2(shs[1..]) == AllAbsent2(shs);
    }
  }

  lemma {:induction false} ClearObitAll34<T>(shs: seq<Shape34<T>>, s: seq<bool>)
    ensures ParseAll34(false, shs, s) == Parsed(Ok(AllAbsent34(shs)), 0)
  {
    hide Parse34, Absent34;
    if shs == [] {
    } else {
      ClearObit34(shs[0], s);
      ClearObitAll34(shs[1..], Drop(s, 0));
      assert [Absent34(shs[0])] + AllAbsent34(shs[1..]) == AllAbsent34(shs);
    }
  }

  /** A clear o-bit: the calls are made all the same, everything is absent, and only the o-bit is consumed. */
  lemma NothingAnnounced<T>(s2: seq<Shape2<T>>, s34: seq<Shape34<T>>, rest: seq<bool>)
    ensures ParseOptional(s2, s34, [false] + rest) == Parsed(Ok((AllAbsent2(s2), AllAbsent34(s34))), 1)
    ensures ParseOpenEnded(s2, [false] + rest) == Parsed(Ok(AllAbsent2(s2)), 1)
  {
    hide ParseAll2, ParseAll34;
    ClearObitAll2(s2, ([false] + rest)[1..]);
    ClearObitAll34(s34, Drop(([false] + rest)[1..], 0));
  }

  /** After a set o-bit, the m-bit that ends the list must be there and clear. */
  function ParseEnd<V>(obit: bool, v: V, s: seq<bool>): Parsed<V> {
    if !obit then Parsed(Ok(v), 0)
    else if s == [] then Parsed(Err(BufferEnded), 0)
    else if s[0] then Parsed(Err(InvalidTrailingMbit), 1)
    else Parsed(Ok(v), 1)
  }

  /** What `from_bitbuf` makes of the bits after the Type-1 elements. */
  function ParseOptional<T>(s2: seq<Shape2<T>>, s34: seq<Shape34<T>>, s: seq<bool>)
    : Parsed<(seq<Value2<T>>, seq<Value34<T>>)>
  {
    if s == [] then Parsed(Err(BufferEnded), 0)
    else
      var e := ParseLists(s[0], s2, s34, s[1..]);
      match e.out
      case Err(err) => Parsed(Err(err), 1 + e.used)
      case Panic => Parsed(Panic, 1 + e.used)
      case Ok(v) =>
        var m := ParseEnd(s[0], v, Drop(s, 1 + e.used));
        Parsed(m.out, 1 + e.used + m.used)
  }

  /** The calls for the Type-2 elements, and then those for the Type-3 and Type-4 elements. */
  function ParseLists<T>(obit: bool, s2: seq<Shape2<T>>, s34: seq<Shape34<T>>, s: seq<bool>)
    : Parsed<(seq<Value2<T>>, seq<Value34<T>>)>
  {
    var a := ParseAll2(obit, s2, s);
    match a.out
    case Err(e) => Parsed(Err(e), a.used)
    case Panic => Parsed(Panic, a.used)
    case Ok(v2) =>
      var b := ParseAll34(obit, s34, Drop(s, a.used));
      match b.out
      case Err(e) => Parsed(Err(e), a.used + b.used)
      case Panic => Parsed(Panic, a.used + b.used)
      case Ok(v34) => Parsed(Ok((v2, v34)), a.used + b.used)
  }

  /** With the o-bit set: what the parser makes of the m-bit that ends the list, clear or not. */
  lemma PresentPart<T(!new)>(
      s2: seq<Shape2<T>>, s34: seq<Shape34<T>>, v2: seq<Value2<T>>, v34: seq<Value34<T>>, end: seq<bool>)
    requires AllFit2(s2, v2) && AllFit34(s34, v34) && DistinctIds(s34) && end != [] && EndsList(s34, end)
    ensures var w := [true] + EncAll2(s2, v2) + EncAll34(s34, v34);
            ParseOptional(s2, s34, w + end) ==
              if end[0] then Parsed(Err(InvalidTrailingMbit), |w| + 1) else Parsed(Ok((v2, v34)), |w| + 1)
  {
    hide ParseAll2, ParseAll34, EncAll2, EncAll34, Fits2, Fits34, EndsList;
    var a, b := EncAll2(s2, v2), EncAll34(s34, v34);
    var s := [true] + a + b + end;
    assert s[1..] == a + (b + end);
    RoundTripAll2(s2, v2, b + end);
    assert Drop(s[1..], |a|) == b + end;
    RoundTripAll34(s34, v34, end);
    assert Drop(s, 1 + |a| + |b|) == end;
  }

  lemma PresentRoundTrip<T(!new)>(
      s2: seq<Shape2<T>>, s34: seq<Shape34<T>>, v2: seq<Value2<T>>, v34: seq<Value34<T>>, rest: seq<bool>)
    requires AllFit2(s2, v2) && AllFit34(s34, v34) && DistinctIds(s34)
    ensures var w := [true] + EncAll2(s2, v2) + EncAll34(s34, v34) + [false];
            ParseOptional(s2, s34, w + rest) == Parsed(Ok((v2, v34)), |w|)
  {
    hide EncAll2, EncAll34, Fits2, Fits34, ParseOptional;
    forall i | 0 <= i < |s34| ensures PeekId([false] + rest, s34[i].id) == Ok(false) { EndPeeks(rest, s34[i].id); }
    PresentPart(s2, s34, v2, v34, [false] + rest);
    var u := [true] + EncAll2(s2, v2) + EncAll34(s34, v34);
    assert u + [false] + rest == u + ([false] + rest);
  }

  /** An element the PDU does not know, after those it does: the whole PDU is rejected. */
  lemma UnknownElementRejected<T(!new)>(
      s2: seq<Shape2<T>>, s34: seq<Shape34<T>>, v2: seq<Value2<T>>, v34: seq<Value34<T>>, id: nat, rest: seq<bool>)
    requires AllFit2(s2, v2) && AllFit34(s34, v34) && DistinctIds(s34)
    requires id < 16 && forall i :: 0 <= i < |s34| ==> s34[i].id != id
    ensures var w := [true] + EncAll2(s2, v2) + EncAll34(s34, v34);
            ParseOptional(s2, s34, w + (Header(id) + rest)) == Parsed(Err(InvalidTrailingMbit), |w| + 1)
  {
    hide EncAll2, EncAll34, Fits2, Fits34, ParseOptional, PeekId, ToBits;
    var end := Header(id) + rest;
    forall i | 0 <= i < |s34| ensures PeekId(end, s34[i].id) == Ok(false) { HeaderPeeks(id, s34[i].id, end); }
    PresentPart(s2, s34, v2, v34, end);
  }

  lemma NonePresent<T(!new)>(s2: seq<Shape2<T>>, s34: seq<Shape34<T>>, v2: seq<Value2<T>>, v34: seq<Value34<T>>)
    requires AllFit2(s2, v2) && AllFit34(s34, v34) && !AnyPresent(v2, v34)
    ensures v2 == AllAbsent2(s2) && v34 == AllAbsent34(s34)
  {
    forall i | 0 <= i < |v34| ensures v34[i] == AllAbsent34(s34)[i] { FitsId(s34[i], v34[i]); }
  }

  /** The whole optional part comes back, for every list of elements with distinct identifiers, whatever follows it. */
  lemma OptionalRoundTrip<T(!new)>(
      s2: seq<Shape2<T>>, s34: seq<Shape34<T>>, v2: seq<Value2<T>>, v34: seq<Value34<T>>, rest: seq<bool>)
    requires AllFit2(s2, v2) && AllFit34(s34, v34) && DistinctIds(s34)
    ensures ParseOptional(s2, s34, EncOptional(s2, s34, v2, v34) + rest)
         == Parsed(Ok((v2, v34)), |EncOptional(s2, s34, v2, v34)|)
  {
    if AnyPresent(v2, v34) {
      PresentRoundTrip(s2, s34, v2, v34, rest);
    } else {
      NonePresent(s2, s34, v2, v34);
      NothingAnnounced(s2, s34, rest);
    }
  }

  // ---------------------------------------------------------------- re-encoding what was parsed

  ghost predicate Canonical2<T(!new)>(sh: Shape2<T>) {
    sh.Struct2? ==> Canonical(sh.codec) && Bounded(sh.codec.dec)
  }

  ghost predicate Canonical34<T(!new)>(sh: Shape34<T>) {
    sh.Struct3? || sh.Struct4? ==> Canonical(sh.codec) && Bounded(sh.codec.dec)
  }

  /** The generic element was short enough to be stored in full. */
  predicate Kept<T>(v: Value34<T>) {
    match v
    case Generic3Value(Some(f)) => f.len <= 128
    case Generic4Value(Some(f)) => f.len <= 64
    case _ => true
  }

  lemma ParsedIsEncoded2<T(!new)>(sh: Shape2<T>, s: seq<bool>)
    requires Canonical2(sh) && Parse2(true, sh, s).out.Ok?
    ensures var r := Parse2(true, sh, s); r.used <= |s| && Enc2(sh, r.out.value) == s[..r.used]
  {
    match sh
    case Word2(n) => Type2Canonical(s, n);
    case Struct2(c) => Type2StructCanonical(s, c);
  }

  lemma ParsedIsEncoded34<T(!new)>(sh: Shape34<T>, s: seq<bool>)
    requires Canonical34(sh) && Parse34(true, sh, s).out.Ok? && Kept(Parse34(true, sh, s).out.value)
    ensures var r := Parse34(true, sh, s); r.used <= |s| && Enc34(sh, r.out.value) == s[..r.used]
  {
    hide ToBits, EncMany, EncType3, EncType4, ParseType3Generic, ParseType3Struct, ParseType4Generic, ParseType4Struct;
    if !Parse34(true, sh, s).out.value.Present() {
      AbsentStays34(sh, s);
    } else {
      match sh
      case Generic3(id) => Type3GenericCanonical(id, s);
      case Struct3(id, c) => Type3StructCanonical(id, s, c);
      case Generic4(id) => Type4GenericCanonical(id, s);
      case Struct4(id, c) => Type4StructCanonical(id, s, c);
    }
  }

  lemma {:induction false} AllParsedIsEncoded2<T(!new)>(shs: seq<Shape2<T>>, s: seq<bool>)
    requires (forall i :: 0 <= i < |shs| ==> Canonical2(shs[i])) && ParseAll2(true, shs, s).out.Ok?
    ensures var r := ParseAll2(true, shs, s);
            |r.out.value| == |shs| && r.used <= |s| && EncAll2(shs, r.out.value) == s[..r.used]
  {
    hide Parse2, Enc2, Canonical2;
    if shs == [] {
    } else {
      ParsedIsEncoded2(shs[0], s);
      var h := Parse2(true, shs[0], s);
      AllParsedIsEncoded2(shs[1..], s[h.used..]);
      var t := ParseAll2(true, shs[1..], s[h.used..]);
      assert s[..h.used + t.used] == s[..h.used] + s[h.used..][..t.used];
      assert ([h.out.value] + t.out.value)[1..] == t.out.value;
    }
  }

  lemma {:induction false} AllParsedIsEncoded34<T(!new)>(shs: seq<Shape34<T>>, s: seq<bool>)
    requires (forall i :: 0 <= i < |shs| ==> Canonical34(shs[i])) && ParseAll34(true, shs, s).out.Ok?
    requires forall v :: v in ParseAll34(true, shs, s).out.value ==> Kept(v)
    ensures var r := ParseAll34(true, shs, s);
            |r.out.value| == |shs| && r.used <= |s| && EncAll34(shs, r.out.value) == s[..r.used]
  {
    hide Parse34, Enc34, Canonical34, Kept;
    if shs == [] {
    } else {
      var h := Parse34(true, shs[0], s);
      assert h.out.value == ParseAll34(true, shs, s).out.value[0];
      ParsedIsEncoded34(shs[0], s);
      var t := ParseAll34(true, shs[1..], s[h.used..]);
      assert ParseAll34(true, shs, s).out.value == [h.out.value] + t.out.value;
      AllParsedIsEncoded34(shs[1..], s[h.used..]);
      assert s[..h.used + t.used] == s[..h.used] + s[h.used..][..t.used];
      assert ([h.out.value] + t.out.value)[1..] == t.out.value;
    }
  }

  lemma NoneIsAny<T>(s2: seq<Shape2<T>>, s34: seq<Shape34<T>>)
    ensures !AnyPresent(AllAbsent2(s2), AllAbsent34(s34))
  {
  }

  /**
    Writing back an accepted optional part gives the bits that were read, except
    in one case: an o-bit that announced elements of which none was present. The
    writer clears the o-bit then.
   */
  lemma OptionalCanonical<T(!new)>(s2: seq<Shape2<T>>, s34: seq<Shape34<T>>, s: seq<bool>)
    requires forall i :: 0 <= i < |s2| ==> Canonical2(s2[i])
    requires forall i :: 0 <= i < |s34| ==> Canonical34(s34[i])
    requires ParseOptional(s2, s34, s).out.Ok?
    requires forall v :: v in ParseOptional(s2, s34, s).out.value.1 ==> Kept(v)
    ensures var r := ParseOptional(s2, s34, s); var (v2, v34) := r.out.value;
            && |v2| == |s2| && |v34| == |s34| && 1 <= r.used <= |s|
            && (EncOptional(s2, s34, v2, v34) == s[..r.used] <==> (s[0] ==> AnyPresent(v2, v34)))
  {
    hide Canonical2, Canonical34, Kept, AnyPresent, ParseAll2, ParseAll34, EncAll2, EncAll34;
    if s[0] {
      var a := ParseAll2(true, s2, s[1..]);
      AllParsedIsEncoded2(s2, s[1..]);
      var t := Drop(s[1..], a.used);
      var b := ParseAll34(true, s34, t);
      AllParsedIsEncoded34(s34, t);
      var end := 1 + a.used + b.used;
      assert s[..end + 1] == [true] + s[1..][..a.used] + t[..b.used] + [false];
      assert s[..end + 1][0];
    } else {
      NoneIsAny(s2, s34);
      assert s == [false] + s[1..];
      NothingAnnounced(s2, s34, s[1..]);
    }
  }

  /** An o-bit that announces one Type-2 element, which is then absent: accepted, but written back as a clear o-bit. */
  lemma EmptyAnnouncementDropped()
    ensures var s2: seq<Shape2<()>>, v2: seq<Value2<()>> := [Word2(3)], [WordValue(None)];
            && ParseOptional(s2, [], [true, false, false]) == Parsed(Ok((v2, [])), 3)
            && EncOptional(s2, [], v2, []) == [false]
  {
    var s2: seq<Shape2<()>>, v2: seq<Value2<()>> := [Word2(3)], [WordValue(None)];
    PresentRoundTrip(s2, [], v2, [], []);
    assert EncAll2(s2, v2) == Enc2(s2[0], v2[0]) + EncAll2(s2[1..], v2[1..]);
    assert [true] + EncAll2(s2, v2) + [] + [false] + [] == [true, false, false];
  }

  // ---------------------------------------------------------------- without a terminating m-bit

  /** What an MLE PDU writes: o-bit and Type-2 elements, and nothing to end them. */
  function EncOpenEnded<T>(s2: seq<Shape2<T>>, v2: seq<Value2<T>>): seq<bool>
    requires |s2| == |v2|
  {
    if AnyPresent(v2, []) then [true] + EncAll2(s2, v2) else [false]
  }

  function ParseOpenEnded<T>(s2: seq<Shape2<T>>, s: seq<bool>): Parsed<seq<Value2<T>>> {
    if s == [] then Parsed(Err(BufferEnded), 0)
    else
      var a := ParseAll2(s[0], s2, s[1..]);
      Parsed(a.out, 1 + a.used)
  }

  /** It comes back whatever follows, in particular before an SDU that takes up the rest of the PDU. */
  lemma OpenEndedRoundTrip<T(!new)>(s2: seq<Shape2<T>>, v2: seq<Value2<T>>, rest: seq<bool>)
    requires AllFit2(s2, v2)
    ensures ParseOpenEnded(s2, EncOpenEnded(s2, v2) + rest) == Parsed(Ok(v2), |EncOpenEnded(s2, v2)|)
  {
    hide ParseAll2, EncAll2, Fits2;
    if AnyPresent(v2, []) {
      assert (EncOpenEnded(s2, v2) + rest)[1..] == EncAll2(s2, v2) + rest;
      RoundTripAll2(s2, v2, rest);
    } else {
      NonePresent(s2, [], v2, []);
      NothingAnnounced<T>(s2, [], rest);
    }
  }

  /** Written back, it gives the bits that were read unless the o-bit announced elements of which none was present. */
  lemma OpenEndedCanonical<T(!new)>(s2: seq<Shape2<T>>, s: seq<bool>)
    requires (forall i :: 0 <= i < |s2| ==> Canonical2(s2[i])) && ParseOpenEnded(s2, s).out.Ok?
    ensures var r := ParseOpenEnded(s2, s); var v2 := r.out.value;
            && |v2| == |s2| && 1 <= r.used <= |s|
            && (EncOpenEnded(s2, v2) == s[..r.used] <==> (s[0] ==> AnyPresent(v2, [])))
  {
    hide Canonical2, AnyPresent, ParseAll2, EncAll2;
    if s[0] {
      AllParsedIsEncoded2(s2, s[1..]);
      var a := ParseAll2(true, s2, s[1..]);
      assert s[..1 + a.used] == [true] + s[1..][..a.used];
      assert s[..1 + a.used][0];
    } else {
      var none: seq<Shape34<T>> := [];
      NoneIsAny(s2, none);
      assert AllAbsent34(none) == [];
      assert s == [false] + s[1..];
      NothingAnnounced(s2, none, s[1..]);
    }
  }
}
