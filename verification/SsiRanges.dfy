/**
  Sorted lists of SSI ranges: construction with its overlap check, look-up with
  an early exit, and the two configuration parsers that rely on them.
 */
module SsiRanges {
  import opened Wrappers

  const U32_MAX: nat := 0xFFFF_FFFF
  const MAX_24_BIT_SSI: nat := 0xFF_FFFF
  type u32 = x: nat | x <= 0xFFFF_FFFF

  /** Both ends inclusive. */
  datatype Range = Range(start: u32, end: u32) {
    predicate Has(addr: u32) { start <= addr <= end }
  }

  predicate InSome(rs: seq<Range>, addr: u32) {
    exists i :: 0 <= i < |rs| && rs[i].Has(addr)
  }

  predicate AllProper(rs: seq<Range>) {
    forall i :: 0 <= i < |rs| ==> rs[i].start <= rs[i].end
  }

  predicate Shared(rs: seq<Range>, addr: u32) {
    exists i, j :: 0 <= i < j < |rs| && rs[i].Has(addr) && rs[j].Has(addr)
  }

  /** No address lies in two of the ranges. */
  ghost predicate Disjoint(rs: seq<Range>) {
    forall addr: u32 :: !Shared(rs, addr)
  }

  // ---------------------------------------------------------------- sorting

  predicate Sorted(rs: seq<Range>) {
    forall i, j :: 0 <= i < j < |rs| ==> rs[i].start <= rs[j].start
  }

  /** Stable insertion: after every range that does not start later. */
  function Insert(r: Range, rs: seq<Range>): (s: seq<Range>)
    ensures multiset(s) == multiset(rs) + multiset{r}
  {
    if rs == [] || rs[|rs| - 1].start <= r.start then rs + [r]
    else
      assert rs == rs[..|rs| - 1] + [rs[|rs| - 1]];
      Insert(r, rs[..|rs| - 1]) + [rs[|rs| - 1]]
  }

  /** The list in order of start address; ranges with the same start keep their order. */
  function SortByStart(rs: seq<Range>): (s: seq<Range>)
    ensures multiset(s) == multiset(rs)
  {
    if rs == [] then []
    else
      assert rs == rs[..|rs| - 1] + [rs[|rs| - 1]];
      Insert(rs[|rs| - 1], SortByStart(rs[..|rs| - 1]))
  }

  lemma {:induction false} InsertSorted(r: Range, rs: seq<Range>)
    requires Sorted(rs)
    ensures Sorted(Insert(r, rs))
  {
    if rs == [] || rs[|rs| - 1].start <= r.start {
    } else {
      var last, rest := rs[|rs| - 1], rs[..|rs| - 1];
      InsertSorted(r, rest);
      var s := Insert(r, rest);
      forall i | 0 <= i < |s| ensures s[i].start <= last.start {
        assert s[i] in multiset(s);
        assert s[i] == r || s[i] in multiset(rest);
      }
    }
  }

  lemma {:induction false} SortSorts(rs: seq<Range>)
    ensures Sorted(SortByStart(rs))
  {
    if rs == [] {
    } else {
      SortSorts(rs[..|rs| - 1]);
      InsertSorted(rs[|rs| - 1], SortByStart(rs[..|rs| - 1]));
    }
  }

  /** How many ranges hold an address. */
  function Holders(rs: seq<Range>, addr: u32): nat {
    if rs == [] then 0 else Holders(rs[..|rs| - 1], addr) + if rs[|rs| - 1].Has(addr) then 1 else 0
  }

  lemma {:induction false} InsertHolders(r: Range, rs: seq<Range>, addr: u32)
    ensures Holders(Insert(r, rs), addr) == Holders(rs, addr) + if r.Has(addr) then 1 else 0
  {
    var s := Insert(r, rs);
    if rs == [] || rs[|rs| - 1].start <= r.start {
      assert s[..|s| - 1] == rs;
    } else {
      InsertHolders(r, rs[..|rs| - 1], addr);
      assert s[..|s| - 1] == Insert(r, rs[..|rs| - 1]);
    }
  }

  lemma {:induction false} SortHolders(rs: seq<Range>, addr: u32)
    ensures Holders(SortByStart(rs), addr) == Holders(rs, addr)
  {
    if rs == [] {
    } else {
      SortHolders(rs[..|rs| - 1], addr);
      InsertHolders(rs[|rs| - 1], SortByStart(rs[..|rs| - 1]), addr);
    }
  }

  lemma {:induction false} HeldIffInSome(rs: seq<Range>, addr: u32)
    ensures Holders(rs, addr) > 0 <==> InSome(rs, addr)
  {
    if rs == [] {
    } else {
      var rest := rs[..|rs| - 1];
      HeldIffInSome(rest, addr);
      if InSome(rest, addr) {
        var i :| 0 <= i < |rest| && rest[i].Has(addr);
        assert rs[i].Has(addr);
      }
    }
  }

  lemma {:induction false} HeldTwiceIffShared(rs: seq<Range>, addr: u32)
    ensures Holders(rs, addr) > 1 <==> Shared(rs, addr)
  {
    if rs == [] {
    } else {
      var rest, n := rs[..|rs| - 1], |rs| - 1;
      HeldTwiceIffShared(rest, addr);
      HeldIffInSome(rest, addr);
      if Holders(rs, addr) > 1 {
        if Holders(rest, addr) > 1 {
          var i, j :| 0 <= i < j < |rest| && rest[i].Has(addr) && rest[j].Has(addr);
          assert rs[i].Has(addr) && rs[j].Has(addr);
        } else {
          var i :| 0 <= i < |rest| && rest[i].Has(addr);
          assert rs[i].Has(addr) && rs[n].Has(addr);
        }
      }
      if i, j :| 0 <= i < j < |rs| && rs[i].Has(addr) && rs[j].Has(addr) {
        assert rest[i].Has(addr);
        if j < n { assert rest[j].Has(addr); }
      }
    }
  }

  /** Sorting changes neither which addresses are covered nor whether ranges overlap nor whether they are proper. */
  lemma SortKeeps(rs: seq<Range>)
    ensures forall addr: u32 :: InSome(SortByStart(rs), addr) <==> InSome(rs, addr)
    ensures Disjoint(SortByStart(rs)) <==> Disjoint(rs)
    ensures AllProper(SortByStart(rs)) <==> AllProper(rs)
  {
    hide SortByStart, Holders, InSome, Shared;
    var s := SortByStart(rs);
    forall addr: u32 ensures InSome(s, addr) <==> InSome(rs, addr) {
      SortHolders(rs, addr);
      HeldIffInSome(rs, addr);
      HeldIffInSome(s, addr);
    }
    forall addr: u32 ensures Shared(s, addr) <==> Shared(rs, addr) {
      SortHolders(rs, addr);
      HeldTwiceIffShared(rs, addr);
      HeldTwiceIffShared(s, addr);
    }
    ProperIsMultiset(rs, s);
  }

  lemma ProperIsMultiset(rs: seq<Range>, s: seq<Range>)
    requires multiset(s) == multiset(rs)
    ensures AllProper(s) <==> AllProper(rs)
  {
    forall i | 0 <= i < |s| ensures s[i] in rs { assert s[i] in multiset(s); }
    forall i | 0 <= i < |rs| ensures rs[i] in s { assert rs[i] in multiset(rs); }
  }

  // ---------------------------------------------------------------- construction

  /** Each range starts past the one before it, except after one that ends at the last address: `end + 1` wraps. */
  predicate StartsPast(rs: seq<Range>) {
    forall i :: 0 < i < |rs| ==> rs[i].start > rs[i - 1].end || rs[i - 1].end == U32_MAX
  }

  /** Sort, then check; `None` where the source panics. */
  method FromVec(rs: seq<Range>) returns (r: Option<seq<Range>>)
    ensures r == if AllProper(rs) && StartsPast(SortByStart(rs)) then Some(SortByStart(rs)) else None
  {
    hide SortByStart;
    var ranges := SortByStart(rs);
    ProperIsMultiset(rs, ranges);
    var lowerBound: nat := 0;
    for i := 0 to |ranges|
      invariant forall j :: 0 <= j < i ==> ranges[j].start <= ranges[j].end
      invariant forall j :: 0 < j < i ==> ranges[j].start > ranges[j - 1].end || ranges[j - 1].end == U32_MAX
      invariant i > 0 ==> lowerBound == (ranges[i - 1].end + 1) % 0x1_0000_0000
      invariant i == 0 ==> lowerBound == 0
    {
      var range := ranges[i];
      if range.start > range.end { return None; }
      if range.start < lowerBound { return None; }
      lowerBound := (range.end + 1) % 0x1_0000_0000;
    }
    r := Some(ranges);
  }

  lemma {:induction false} Apart(rs: seq<Range>, i: nat, j: nat)
    requires AllProper(rs) && i < j < |rs|
    requires forall k :: 0 < k < |rs| ==> rs[k].start > rs[k - 1].end
    ensures rs[j].start > rs[i].end
  {
    if i == j - 1 {
    } else {
      Apart(rs, i, j - 1);
    }
  }

  lemma SortedApartIffDisjoint(rs: seq<Range>)
    requires Sorted(rs) && AllProper(rs)
    ensures (forall k :: 0 < k < |rs| ==> rs[k].start > rs[k - 1].end) <==> Disjoint(rs)
  {
    if forall k :: 0 < k < |rs| ==> rs[k].start > rs[k - 1].end {
      forall addr: u32 ensures !Shared(rs, addr) {
        if i, j :| 0 <= i < j < |rs| && rs[i].Has(addr) && rs[j].Has(addr) { Apart(rs, i, j); }
      }
    }
    if Disjoint(rs) {
      forall k | 0 < k < |rs| ensures rs[k].start > rs[k - 1].end {
        assert !Shared(rs, rs[k].start);
        assert rs[k].Has(rs[k].start) && !rs[k - 1].Has(rs[k].start);
      }
    }
  }

  /** Only the range with the highest start may end at the last 32-bit address. */
  predicate OnlyLastAtMax(sorted: seq<Range>) {
    forall i :: 0 <= i < |sorted| - 1 ==> sorted[i].end < U32_MAX
  }

  /**
    Every proper, pairwise disjoint list is accepted. An accepted list is pairwise disjoint
    if and only if no range but the highest one ends at the last 32-bit address.
   */
  lemma AcceptsIffDisjoint(rs: seq<Range>)
    requires AllProper(rs)
    ensures var s := SortByStart(rs);
            && (Disjoint(rs) ==> StartsPast(s))
            && (StartsPast(s) ==> (Disjoint(rs) <==> OnlyLastAtMax(s)))
  {
    hide SortByStart, Disjoint, AllProper, Sorted;
    var s := SortByStart(rs);
    SortSorts(rs);
    SortKeeps(rs);
    SortedApartIffDisjoint(s);
    if Disjoint(s) { NoneAtMaxBelow(s); }
  }

  lemma NoneAtMaxBelow(s: seq<Range>)
    requires forall k :: 0 < k < |s| ==> s[k].start > s[k - 1].end
    ensures OnlyLastAtMax(s)
  {
    forall i | 0 <= i < |s| - 1 ensures s[i].end < U32_MAX {
      assert s[i + 1].start > s[i + 1 - 1].end;
    }
  }

  /** With a range that does end there, an overlapping list gets through. */
  lemma WrapAcceptsOverlap()
    ensures var rs := [Range(5, U32_MAX), Range(7, 9)];
            AllProper(rs) && StartsPast(SortByStart(rs)) && !Disjoint(rs)
  {
    var rs := [Range(5, U32_MAX), Range(7, 9)];
    assert rs[..1] == [rs[0]] && rs[..1][..0] == [];
    assert SortByStart(rs[..1]) == [rs[0]];
    assert SortByStart(rs) == rs;
    assert rs[0].Has(7) && rs[1].Has(7);
    assert Shared(rs, 7);
  }

  // ---------------------------------------------------------------- look-up

  /** Look-up that stops at the first range ending past the address. */
  method Contains(rs: seq<Range>, addr: u32) returns (r: bool)
    requires Sorted(rs)
    ensures r <==> InSome(rs, addr)
    ensures r <==> exists i :: 0 <= i < |rs| && rs[i].start <= addr <= rs[i].end
  {
    assert forall i :: 0 <= i < |rs| ==> (rs[i].Has(addr) <==> rs[i].start <= addr <= rs[i].end);
    for i := 0 to |rs|
      invariant forall j :: 0 <= j < i ==> !rs[j].Has(addr)
    {
      if rs[i].start <= addr <= rs[i].end { return true; }
      if rs[i].end > addr { break; }
    }
    r := false;
  }

  /** Every accepted list answers membership in the list it was built from, overlapping or not. */
  lemma LookupIsMembership(rs: seq<Range>, addr: u32)
    ensures Sorted(SortByStart(rs)) && (InSome(SortByStart(rs), addr) <==> InSome(rs, addr))
  {
    SortSorts(rs);
    SortKeeps(rs);
  }

  // ---------------------------------------------------------------- configuration

  datatype ConfigErr =
    | Reversed(range: Range)
    | TooLarge(value: nat)
    | Overlapping(previousEnd: nat, start: nat)
    | OutsideLocal(issi: nat)
  datatype Parsed<+T> = Ok(value: T) | Err(error: ConfigErr)

  /**
    Accepts exactly proper, pairwise disjoint ranges within 24 bits. The constructor
    it then calls cannot panic, and the result covers the addresses of the input.
   */
  method ParseAllowedGssiRanges(input: Option<seq<Range>>) returns (r: Parsed<Option<seq<Range>>>)
    ensures input.None? ==> r == Ok(None)
    ensures input.Some? ==>
              (r.Ok? <==>
                 && AllProper(input.value) && Disjoint(input.value)
                 && forall i :: 0 <= i < |input.value| ==> input.value[i].end <= 0xFF_FFFF)
    ensures input.Some? && r.Ok? ==>
              && r.value.Some? && Sorted(r.value.value)
              && forall addr: u32 :: InSome(r.value.value, addr) <==> InSome(input.value, addr)
    ensures r.Err? ==> input.Some? && Explains(input.value, r.error)
  {
    hide SortByStart, Disjoint, InSome, Sorted, Shared;
    if input.None? { return Ok(None); }
    var rs := input.value;
    var ranges := SortByStart(rs);
    SortSorts(rs);
    SortKeeps(rs);
    EndsAreMultiset(rs, ranges);
    var previousEnd: Option<nat> := None;
    for i := 0 to |ranges|
      invariant previousEnd == if i == 0 then None else Some(ranges[i - 1].end)
      invariant forall j :: 0 <= j < i ==> ranges[j].start <= ranges[j].end <= MAX_24_BIT_SSI
      invariant forall j :: 0 < j < i ==> ranges[j].start > ranges[j - 1].end
    {
      var range := ranges[i];
      assert range in multiset(ranges);
      if range.start > range.end { return Err(Reversed(range)); }
      if range.end > MAX_24_BIT_SSI { return Err(TooLarge(range.end)); }
      if previousEnd.Some? && range.start <= previousEnd.value {
        if AllProper(ranges) && Disjoint(ranges) { SortedApartIffDisjoint(ranges); }
        assert ranges[i - 1] in multiset(ranges);
        SharedStart(rs, i);
        return Err(Overlapping(previousEnd.value, range.start));
      }
      previousEnd := Some(range.end);
    }
    SortedApartIffDisjoint(ranges);
    AcceptsIffDisjoint(ranges);
    SortSorts(ranges);
    SortKeeps(ranges);
    var built := FromVec(ranges);
    r := Ok(built);
  }

  /** The error names what is wrong with the input. */
  ghost predicate Explains(rs: seq<Range>, e: ConfigErr) {
    match e
    case Reversed(range) => range in rs && range.start > range.end
    case TooLarge(v) => v > 0xFF_FFFF && exists x :: x in rs && x.end == v
    case Overlapping(end, start) => start < U32_MAX + 1 && Shared(rs, start) && exists x :: x in rs && x.end == end
    case OutsideLocal(_) => false
  }

  lemma SharedStart(rs: seq<Range>, i: nat)
    requires var s := SortByStart(rs); 0 < i < |s| && s[i - 1].start <= s[i - 1].end && s[i].start <= s[i].end
    requires var s := SortByStart(rs); s[i].start <= s[i - 1].end
    ensures Shared(rs, SortByStart(rs)[i].start)
  {
    hide SortByStart;
    var s := SortByStart(rs);
    SortSorts(rs);
    assert s[i - 1].Has(s[i].start) && s[i].Has(s[i].start);
    HeldTwiceIffShared(s, s[i].start);
    HeldTwiceIffShared(rs, s[i].start);
    SortHolders(rs, s[i].start);
  }

  lemma EndsAreMultiset(rs: seq<Range>, s: seq<Range>)
    requires multiset(s) == multiset(rs)
    ensures (forall i :: 0 <= i < |s| ==> s[i].end <= MAX_24_BIT_SSI) <==>
            (forall i :: 0 <= i < |rs| ==> rs[i].end <= MAX_24_BIT_SSI)
  {
    forall i | 0 <= i < |s| ensures s[i] in rs { assert s[i] in multiset(s); }
    forall i | 0 <= i < |rs| ensures rs[i] in s { assert rs[i] in multiset(rs); }
  }

  predicate Ascending(xs: seq<u32>) {
    forall i, j :: 0 <= i < j < |xs| ==> xs[i] <= xs[j]
  }

  predicate StrictlyAscending(xs: seq<u32>) {
    forall i, j :: 0 <= i < j < |xs| ==> xs[i] < xs[j]
  }

  function InsertNumber(x: u32, xs: seq<u32>): seq<u32> {
    if xs == [] || xs[|xs| - 1] <= x then xs + [x]
    else InsertNumber(x, xs[..|xs| - 1]) + [xs[|xs| - 1]]
  }

  function SortNumbers(xs: seq<u32>): seq<u32> {
    if xs == [] then [] else InsertNumber(xs[|xs| - 1], SortNumbers(xs[..|xs| - 1]))
  }

  /** Drop every element equal to the one before it. */
  function Dedup(xs: seq<u32>): seq<u32> {
    if xs == [] then []
    else
      var rest := Dedup(xs[..|xs| - 1]);
      if |xs| > 1 && xs[|xs| - 2] == xs[|xs| - 1] then rest else rest + [xs[|xs| - 1]]
  }

  lemma SplitLast(xs: seq<u32>)
    requires xs != []
    ensures forall y :: y in xs <==> y in xs[..|xs| - 1] || y == xs[|xs| - 1]
    ensures Ascending(xs) ==> Ascending(xs[..|xs| - 1])
  {
    assert xs == xs[..|xs| - 1] + [xs[|xs| - 1]];
  }

  lemma {:induction false} InsertNumberLaws(x: u32, xs: seq<u32>)
    requires Ascending(xs)
    ensures Ascending(InsertNumber(x, xs))
    ensures forall y :: y in InsertNumber(x, xs) <==> y == x || y in xs
  {
    if xs == [] || xs[|xs| - 1] <= x {
    } else {
      var rest, last := xs[..|xs| - 1], xs[|xs| - 1];
      SplitLast(xs);
      InsertNumberLaws(x, rest);
      var s := InsertNumber(x, rest);
      forall i | 0 <= i < |s| ensures s[i] <= last {
        assert s[i] in s;
      }
    }
  }

  lemma {:induction false} SortNumbersLaws(xs: seq<u32>)
    ensures Ascending(SortNumbers(xs)) && forall y :: y in SortNumbers(xs) <==> y in xs
  {
    if xs == [] {
    } else {
      SplitLast(xs);
      SortNumbersLaws(xs[..|xs| - 1]);
      InsertNumberLaws(xs[|xs| - 1], SortNumbers(xs[..|xs| - 1]));
    }
  }

  lemma {:induction false} DedupLaws(xs: seq<u32>)
    requires Ascending(xs)
    ensures StrictlyAscending(Dedup(xs)) && forall y :: y in Dedup(xs) <==> y in xs
  {
    if xs == [] {
    } else {
      var rest, last := xs[..|xs| - 1], xs[|xs| - 1];
      SplitLast(xs);
      DedupLaws(rest);
      if |xs| > 1 && xs[|xs| - 2] == last {
        assert rest[|rest| - 1] == last;
      } else {
        var d := Dedup(rest);
        forall i | 0 <= i < |d| ensures d[i] < last {
          assert d[i] in rest;
        }
      }
    }
  }

  /** May this ISSI be listed for recovery? */
  predicate Recoverable(x: u32, local: seq<Range>) {
    x <= 0xFF_FFFF && (local != [] ==> InSome(local, x))
  }

  function Listed(input: Option<seq<u32>>): seq<u32> { if input.Some? then input.value else [] }

  /** `x` is the smallest listed ISSI that may not be recovered, and `e` says why. */
  ghost predicate Offends(x: u32, xs: seq<u32>, local: seq<Range>, e: ConfigErr) {
    && x in xs && !Recoverable(x, local)
    && e == (if x > MAX_24_BIT_SSI then TooLarge(x) else OutsideLocal(x))
    && forall y :: y in xs && y < x ==> Recoverable(y, local)
  }

  /** Accepts exactly lists of recoverable ISSIs and returns them strictly sorted; or it names the smallest offender. */
  method ParseRestartRecoveryIssis(input: Option<seq<u32>>, local: seq<Range>) returns (r: Parsed<seq<u32>>)
    requires Sorted(local)
    ensures r.Ok? <==> forall x :: x in Listed(input) ==> Recoverable(x, local)
    ensures r.Ok? ==> StrictlyAscending(r.value) && forall x :: x in r.value <==> x in Listed(input)
    ensures r.Err? ==> exists x :: Offends(x, Listed(input), local, r.error)
  {
    hide InSome, Sorted, Dedup, SortNumbers, StrictlyAscending;
    var xs := Listed(input);
    var issis := Dedup(SortNumbers(xs));
    SortNumbersLaws(xs);
    DedupLaws(SortNumbers(xs));
    for i := 0 to |issis|
      invariant forall j :: 0 <= j < i ==> Recoverable(issis[j], local)
    {
      var x := issis[i];
      SmallestOffender(issis, i, xs, local);
      if x > MAX_24_BIT_SSI {
        assert Offends(x, xs, local, TooLarge(x));
        return Err(TooLarge(x));
      }
      if local != [] {
        var inside := Contains(local, x);
        if !inside {
          assert Offends(x, xs, local, OutsideLocal(x));
          return Err(OutsideLocal(x));
        }
      }
    }
    r := Ok(issis);
  }

  lemma SmallestOffender(issis: seq<u32>, i: nat, xs: seq<u32>, local: seq<Range>)
    requires StrictlyAscending(issis) && i < |issis| && forall x :: x in issis <==> x in xs
    requires forall j :: 0 <= j < i ==> Recoverable(issis[j], local)
    ensures issis[i] in xs && forall y :: y in xs && y < issis[i] ==> Recoverable(y, local)
  {
    assert issis[i] in issis;
    forall y | y in xs && y < issis[i] ensures Recoverable(y, local) {
      assert y in issis;
      var j :| 0 <= j < |issis| && issis[j] == y;
    }
  }
}
