/**
 Comparing deployed code with a local build, with the immutables masked on both sides.

 The source sorts the declared ranges, compares neighbours, adds lengths and fills a buffer with
 zeros. The specification here says nothing of sorting, neighbours or sums: it speaks of pairs of
 ranges, of the set of covered positions and of its size.
 */
module MaskedCode {
  import opened Options
  import opened Text

  type Byte = n: nat | n < 256

  /** A byte range [start, start + length) an artifact declares. */
  datatype Range = Range(start: int, length: int) {
    function End(): int { start + length }

    predicate Holds(p: int) { start <= p < End() }
  }

  datatype Reference = Reference(astId: string, ranges: seq<Range>)

  datatype MaskOutcome = NotHex | OutOfBounds | Overlap | TooBroad | Masked(masked: string, maskedBytes: nat)

  const MAX_MASKED_IMMUTABLE_BYTES: nat := 2048

  // ---------------------------------------------------------------- hex

  predicate HexDigit(c: char) {
    '0' <= c <= '9' || 'a' <= c <= 'f' || 'A' <= c <= 'F'
  }

  function DigitValue(c: char): (n: nat)
    requires HexDigit(c)
    ensures n < 16
  {
    if c <= '9' then c as int - '0' as int
    else if c <= 'F' then c as int - 'A' as int + 10
    else c as int - 'a' as int + 10
  }

  function LowerDigit(n: nat): (c: char)
    requires n < 16
    ensures HexDigit(c) && DigitValue(c) == n && LowerChar(c) == c
  {
    if n < 10 then ('0' as int + n) as char else ('a' as int + n - 10) as char
  }

  /** A whole number of hex-encoded bytes. */
  predicate HexBytes(s: string) {
    |s| % 2 == 0 && forall i :: 0 <= i < |s| ==> HexDigit(s[i])
  }

  function Decode(s: string): (bytes: seq<Byte>)
    requires HexBytes(s)
  {
    seq(|s| / 2, i requires 0 <= i < |s| / 2 => 16 * DigitValue(s[2 * i]) + DigitValue(s[2 * i + 1]))
  }

  function Encode(bytes: seq<Byte>): (s: string)
    ensures |s| == 2 * |bytes|
  {
    seq(2 * |bytes|, i requires 0 <= i < 2 * |bytes| =>
      if i % 2 == 0 then LowerDigit(bytes[i / 2] / 16) else LowerDigit(bytes[i / 2] % 16))
  }

  lemma EncodeIsLowerHex(bytes: seq<Byte>)
    ensures HexBytes(Encode(bytes)) && Lower(Encode(bytes)) == Encode(bytes)
  {
  }

  /** Encoding and decoding undo each other, up to the case of the digits. */
  lemma DecodeEncode(bytes: seq<Byte>)
    ensures HexBytes(Encode(bytes)) && Decode(Encode(bytes)) == bytes
  {
    EncodeIsLowerHex(bytes);
    var s := Encode(bytes);
    forall i | 0 <= i < |bytes| ensures Decode(s)[i] == bytes[i] {
      assert s[2 * i] == LowerDigit(bytes[i] / 16) && s[2 * i + 1] == LowerDigit(bytes[i] % 16);
    }
  }

  lemma DigitRoundTrip(c: char)
    requires HexDigit(c)
    ensures LowerDigit(DigitValue(c)) == LowerChar(c)
  {
  }

  lemma EncodeDecode(s: string)
    requires HexBytes(s)
    ensures Encode(Decode(s)) == Lower(s)
  {
    forall i | 0 <= i < |s| ensures Encode(Decode(s))[i] == LowerChar(s[i]) {
      EncodedPair(s, i / 2);
      assert i == 2 * (i / 2) || i == 2 * (i / 2) + 1;
    }
  }

  lemma EncodedPair(s: string, k: nat)
    requires HexBytes(s) && k < |s| / 2
    ensures Encode(Decode(s))[2 * k] == LowerChar(s[2 * k])
    ensures Encode(Decode(s))[2 * k + 1] == LowerChar(s[2 * k + 1])
  {
    var high, low := s[2 * k], s[2 * k + 1];
    DigitRoundTrip(high);
    DigitRoundTrip(low);
    var n, m := DigitValue(high), DigitValue(low);
    assert Decode(s)[k] == 16 * n + m;
    assert (16 * n + m) / 16 == n && (16 * n + m) % 16 == m;
    hide LowerDigit, DigitValue, LowerChar;
    assert 2 * k / 2 == k && (2 * k + 1) / 2 == k;
  }

  function Body(code: string): string {
    if |code| >= 2 && code[0] == '0' && code[1] == 'x' then code[2..] else code
  }

  // ---------------------------------------------------------------- what a set of ranges means

  /** All declared ranges, in enumeration order. */
  function Declared(references: seq<Reference>): seq<Range> {
    if references == [] then []
    else Declared(references[..|references| - 1]) + references[|references| - 1].ranges
  }

  predicate Within(r: Range, size: nat) {
    0 <= r.start && 0 <= r.length && r.End() <= size
  }

  ghost predicate InBounds(ranges: seq<Range>, size: nat) {
    forall i :: 0 <= i < |ranges| ==> Within(ranges[i], size)
  }

  ghost function Positions(r: Range): (s: set<int>) {
    set p | r.start <= p < r.End() && r.Holds(p)
  }

  ghost function Covered(ranges: seq<Range>): set<int> {
    if ranges == [] then {} else Positions(ranges[0]) + Covered(ranges[1..])
  }

  /** Of two ranges, the one that starts first ends before the other begins; a is declared first. */
  predicate Apart(a: Range, b: Range) {
    if a.start <= b.start then a.End() <= b.start else b.End() <= a.start
  }

  ghost predicate PairwiseApart(ranges: seq<Range>) {
    forall i, j :: 0 <= i < j < |ranges| ==> Apart(ranges[i], ranges[j])
  }

  ghost function ZeroOut(bytes: seq<Byte>, ranges: seq<Range>): (r: seq<Byte>)
    ensures |r| == |bytes|
  {
    seq(|bytes|, p requires 0 <= p < |bytes| => if p in Covered(ranges) then 0 else bytes[p])
  }

  ghost function Mask(code: string, references: seq<Reference>): MaskOutcome {
    var body, ranges := Body(code), Declared(references);
    if !HexBytes(body) then NotHex
    else if !InBounds(ranges, |body| / 2) then OutOfBounds
    else if !PairwiseApart(ranges) then Overlap
    else if |Covered(ranges)| > MAX_MASKED_IMMUTABLE_BYTES then TooBroad
    else Masked("0x" + Encode(ZeroOut(Decode(body), ranges)), |Covered(ranges)|)
  }

  // ---------------------------------------------------------------- sorting by start

  /** The stable sort by start: a range goes before those that start where it does. */
  function SortByStart(ranges: seq<Range>): (r: seq<Range>)
    ensures |r| == |ranges|
  {
    if ranges == [] then [] else Insert(ranges[0], SortByStart(ranges[1..]))
  }

  function Insert(x: Range, sorted: seq<Range>): (r: seq<Range>)
    ensures |r| == |sorted| + 1
  {
    if sorted == [] then [x]
    else if sorted[0].start < x.start then [sorted[0]] + Insert(x, sorted[1..])
    else [x] + sorted
  }

  ghost predicate Ascending(s: seq<Range>) {
    forall i, j :: 0 <= i < j < |s| ==> s[i].start <= s[j].start
  }

  /** Each ends before any later one begins. */
  ghost predicate Chain(s: seq<Range>) {
    forall i, j :: 0 <= i < j < |s| ==> s[i].End() <= s[j].start
  }

  ghost predicate ApartFromAll(x: Range, s: seq<Range>) {
    forall i :: 0 <= i < |s| ==> Apart(x, s[i])
  }

  lemma {:induction false} InsertKeepsOrder(x: Range, s: seq<Range>)
    requires Ascending(s)
    ensures Ascending(Insert(x, s))
    ensures forall y :: y in Insert(x, s) <==> y == x || y in s
  {
    if s != [] && s[0].start < x.start {
      InsertKeepsOrder(x, s[1..]);
      var r := Insert(x, s[1..]);
      forall j | 0 <= j < |r| ensures s[0].start <= r[j].start {
        assert r[j] in r;
        if r[j] != x {
          var k :| 0 <= k < |s[1..]| && s[1..][k] == r[j];
          assert s[k + 1] == r[j];
        }
      }
    }
  }

  lemma {:induction false} ChainAfterInsert(x: Range, s: seq<Range>)
    requires Ascending(s) && x.length >= 0 && forall i :: 0 <= i < |s| ==> s[i].length >= 0
    ensures Chain(Insert(x, s)) <==> Chain(s) && ApartFromAll(x, s)
  {
    if s == [] {
    } else if s[0].start < x.start {
      ChainAfterInsert(x, s[1..]);
      InsertKeepsOrder(x, s[1..]);
      ChainCons(s[0], Insert(x, s[1..]));
      ChainCons(s[0], s[1..]);
      assert s == [s[0]] + s[1..];
      ApartCons(x, s);
      assert x in Insert(x, s[1..]);
      BeforeAll(s[0], x, s[1..]);
    } else {
      ChainCons(x, s);
      forall i | 0 <= i < |s| ensures Apart(x, s[i]) <==> x.End() <= s[i].start {
        assert s[0].start <= s[i].start;
      }
    }
  }

  lemma ApartCons(x: Range, s: seq<Range>)
    requires s != []
    ensures ApartFromAll(x, s) <==> Apart(x, s[0]) && ApartFromAll(x, s[1..])
  {
    if Apart(x, s[0]) && ApartFromAll(x, s[1..]) {
      forall i | 0 <= i < |s| ensures Apart(x, s[i]) {
        assert i > 0 ==> s[i] == s[1..][i - 1];
      }
    }
  }

  ghost predicate EndsBefore(x: Range, s: seq<Range>) {
    forall i :: 0 <= i < |s| ==> x.End() <= s[i].start
  }

  lemma ChainCons(x: Range, s: seq<Range>)
    ensures Chain([x] + s) <==> Chain(s) && EndsBefore(x, s)
  {
    var t := [x] + s;
    if Chain(t) {
      forall i | 0 <= i < |s| ensures x.End() <= s[i].start {
        assert t[0].End() <= t[i + 1].start;
      }
      forall i, j | 0 <= i < j < |s| ensures s[i].End() <= s[j].start {
        assert t[i + 1].End() <= t[j + 1].start;
      }
    }
  }

  lemma BeforeAll(h: Range, x: Range, s: seq<Range>)
    requires Ascending(s)
    ensures EndsBefore(h, Insert(x, s)) <==> h.End() <= x.start && EndsBefore(h, s)
  {
    InsertKeepsOrder(x, s);
    var r := Insert(x, s);
    if EndsBefore(h, r) {
      assert x in r;
      forall i | 0 <= i < |s| ensures h.End() <= s[i].start {
        assert s[i] in r;
      }
    }
    if h.End() <= x.start && EndsBefore(h, s) {
      forall i | 0 <= i < |r| ensures h.End() <= r[i].start {
        assert r[i] in r;
      }
    }
  }

  /** Sorted by start, neighbours never overlap exactly when no two declared ranges do. */
  lemma {:induction false} SortedChainExactly(ranges: seq<Range>)
    requires forall i :: 0 <= i < |ranges| ==> ranges[i].length >= 0
    ensures Ascending(SortByStart(ranges))
    ensures forall y :: y in SortByStart(ranges) <==> y in ranges
    ensures Chain(SortByStart(ranges)) <==> PairwiseApart(ranges)
  {
    if ranges != [] {
      var x, rest := ranges[0], ranges[1..];
      var sorted := SortByStart(rest);
      SortedChainExactly(rest);
      InsertKeepsOrder(x, sorted);
      forall i | 0 <= i < |sorted| ensures sorted[i].length >= 0 {
        assert sorted[i] in rest;
      }
      ChainAfterInsert(x, sorted);
      SameMembersSameApart(x, sorted, rest);
      PairwiseCons(ranges);
    }
  }

  lemma SameMembersSameApart(x: Range, s: seq<Range>, t: seq<Range>)
    requires forall y :: y in s <==> y in t
    ensures ApartFromAll(x, s) <==> ApartFromAll(x, t)
  {
    if ApartFromAll(x, s) {
      forall i | 0 <= i < |t| ensures Apart(x, t[i]) {
        assert t[i] in s;
      }
    }
    if ApartFromAll(x, t) {
      forall i | 0 <= i < |s| ensures Apart(x, s[i]) {
        assert s[i] in t;
      }
    }
  }

  lemma PairwiseCons(ranges: seq<Range>)
    requires ranges != []
    ensures PairwiseApart(ranges) <==> PairwiseApart(ranges[1..]) && ApartFromAll(ranges[0], ranges[1..])
  {
    var rest := ranges[1..];
    if PairwiseApart(ranges) {
      forall i, j | 0 <= i < j < |rest| ensures Apart(rest[i], rest[j]) {
        assert Apart(ranges[i + 1], ranges[j + 1]);
      }
      forall i | 0 <= i < |rest| ensures Apart(ranges[0], rest[i]) {
        assert Apart(ranges[0], ranges[i + 1]);
      }
    }
    if PairwiseApart(rest) && ApartFromAll(ranges[0], rest) {
      forall i, j | 0 <= i < j < |ranges| ensures Apart(ranges[i], ranges[j]) {
        assert ranges[j] == rest[j - 1];
        assert i > 0 ==> ranges[i] == rest[i - 1];
      }
    }
  }

  /** Neighbours suffice, as no length is negative. */
  lemma {:induction false} NeighboursChain(s: seq<Range>, i: nat, j: nat)
    requires i < j < |s|
    requires forall k :: 0 <= k < |s| ==> s[k].length >= 0
    requires forall k :: 0 < k < |s| ==> s[k - 1].End() <= s[k].start
    ensures s[i].End() <= s[j].start
  {
    if i < j - 1 {
      NeighboursChain(s, i, j - 1);
    }
  }

  // ---------------------------------------------------------------- counting what is covered

  function TotalLength(ranges: seq<Range>): int {
    if ranges == [] then 0 else ranges[0].length + TotalLength(ranges[1..])
  }

  lemma {:induction false} PositionsCount(r: Range)
    requires r.length >= 0
    ensures |Positions(r)| == r.length
    decreases r.length
  {
    if r.length == 0 {
      assert Positions(r) == {};
    } else {
      var shorter := Range(r.start, r.length - 1);
      PositionsCount(shorter);
      assert Positions(r) == Positions(shorter) + {r.End() - 1};
    }
  }

  lemma {:induction false} CoveredExactly(ranges: seq<Range>, p: int)
    ensures p in Covered(ranges) <==> exists i :: 0 <= i < |ranges| && ranges[i].Holds(p)
  {
    if ranges != [] {
      CoveredExactly(ranges[1..], p);
      if p in Covered(ranges[1..]) {
        var i :| 0 <= i < |ranges[1..]| && ranges[1..][i].Holds(p);
        assert ranges[i + 1].Holds(p);
      } else if exists i :: 0 <= i < |ranges| && ranges[i].Holds(p) {
        var i :| 0 <= i < |ranges| && ranges[i].Holds(p);
        assert i > 0 ==> ranges[1..][i - 1].Holds(p);
      }
    }
  }

  lemma NotCovered(x: Range, ranges: seq<Range>, p: int)
    requires ApartFromAll(x, ranges) && x.Holds(p) && forall i :: 0 <= i < |ranges| ==> ranges[i].length >= 0
    ensures p !in Covered(ranges)
  {
    CoveredExactly(ranges, p);
    forall i | 0 <= i < |ranges| ensures !ranges[i].Holds(p) {
      assert Apart(x, ranges[i]);
    }
  }

  /** For ranges that are apart, adding the lengths counts the distinct positions. */
  lemma {:induction false} LengthsCountPositions(ranges: seq<Range>)
    requires PairwiseApart(ranges) && forall i :: 0 <= i < |ranges| ==> ranges[i].length >= 0
    ensures |Covered(ranges)| == TotalLength(ranges)
  {
    if ranges != [] {
      var x, rest := ranges[0], ranges[1..];
      PairwiseCons(ranges);
      LengthsCountPositions(rest);
      PositionsCount(x);
      forall p | p in Positions(x) ensures p !in Covered(rest) {
        NotCovered(x, rest, p);
      }
      assert Positions(x) !! Covered(rest);
    }
  }

  // ---------------------------------------------------------------- the masking routine

  lemma {:induction false} DeclaredPrefix(references: seq<Reference>, i: nat)
    requires i < |references|
    ensures Declared(references[..i + 1]) == Declared(references[..i]) + references[i].ranges
  {
    assert references[..i + 1][..i] == references[..i];
  }

  lemma {:induction false} DeclaredHolds(references: seq<Reference>, i: nat, r: Range)
    requires i < |references| && r in references[i].ranges
    ensures r in Declared(references)
  {
    var n := |references| - 1;
    if i < n {
      DeclaredHolds(references[..n], i, r);
    }
  }

  /** Every declared range, or nothing if one of them does not lie in the code. */
  method CollectRanges(references: seq<Reference>, size: nat) returns (ok: bool, declared: seq<Range>)
    ensures ok <==> InBounds(Declared(references), size)
    ensures ok ==> declared == Declared(references)
  {
    declared := [];
    for i := 0 to |references|
      invariant declared == Declared(references[..i])
      invariant InBounds(declared, size)
    {
      var ranges := references[i].ranges;
      for j := 0 to |ranges|
        invariant declared == Declared(references[..i]) + ranges[..j]
        invariant InBounds(declared, size)
      {
        if !Within(ranges[j], size) {
          DeclaredHolds(references, i, ranges[j]);
          return false, [];
        }
        declared := declared + [ranges[j]];
      }
      DeclaredPrefix(references, i);
    }
    assert references[..|references|] == references;
    return true, declared;
  }

  /** Whether sorted ranges that follow one another leave no overlap. */
  method NoNeighboursOverlap(ordered: seq<Range>) returns (ok: bool)
    requires forall k :: 0 <= k < |ordered| ==> ordered[k].length >= 0
    ensures ok <==> Chain(ordered)
  {
    var i := 1;
    while i < |ordered|
      invariant 1 <= i
      invariant forall k :: 0 < k < i && k < |ordered| ==> ordered[k - 1].End() <= ordered[k].start
    {
      if ordered[i].start < ordered[i - 1].End() {
        return false;
      }
      i := i + 1;
    }
    forall j, k | 0 <= j < k < |ordered| ensures ordered[j].End() <= ordered[k].start {
      NeighboursChain(ordered, j, k);
    }
    return true;
  }

  method FillZero(bytes: array<Byte>, start: nat, end: nat)
    requires start <= end <= bytes.Length
    modifies bytes
    ensures forall p :: 0 <= p < bytes.Length ==> bytes[p] == if start <= p < end then 0 else old(bytes[p])
  {
    for p := start to end
      invariant forall q :: 0 <= q < bytes.Length ==> bytes[q] == if start <= q < p then 0 else old(bytes[q])
    {
      bytes[p] := 0;
    }
  }

  method ZeroRanges(bytes: array<Byte>, ranges: seq<Range>)
    requires InBounds(ranges, bytes.Length)
    modifies bytes
    ensures bytes[..] == ZeroOut(old(bytes[..]), ranges)
  {
    assert bytes[..] == ZeroOut(bytes[..], []) && ranges[..0] == [] by {
      ZeroNothing(bytes[..]);
    }
    for i := 0 to |ranges|
      invariant bytes[..] == ZeroOut(old(bytes[..]), ranges[..i])
    {
      ghost var before := bytes[..];
      FillZero(bytes, ranges[i].start, ranges[i].End());
      ZeroOneMore(old(bytes[..]), ranges, i, before, bytes[..]);
    }
    assert ranges[..|ranges|] == ranges;
  }

  lemma ZeroNothing(bytes: seq<Byte>)
    ensures ZeroOut(bytes, []) == bytes
  {
    assert Covered([]) == {};
    forall p | 0 <= p < |bytes| ensures ZeroOut(bytes, [])[p] == bytes[p] {
    }
  }

  lemma ZeroOneMore(bytes: seq<Byte>, ranges: seq<Range>, i: nat, before: seq<Byte>, after: seq<Byte>)
    requires i < |ranges| && before == ZeroOut(bytes, ranges[..i]) && |after| == |bytes|
    requires forall p :: 0 <= p < |bytes| ==>
               after[p] == if ranges[i].Holds(p) then 0 else before[p]
    ensures after == ZeroOut(bytes, ranges[..i + 1])
  {
    forall p | 0 <= p < |bytes| ensures after[p] == ZeroOut(bytes, ranges[..i + 1])[p] {
      CoveredByPrefix(ranges, i, p);
    }
  }

  lemma CoveredByPrefix(ranges: seq<Range>, i: nat, p: int)
    requires i < |ranges|
    ensures p in Covered(ranges[..i + 1]) <==>
            p in Covered(ranges[..i]) || ranges[i].Holds(p)
  {
    var short, long := ranges[..i], ranges[..i + 1];
    CoveredExactly(short, p);
    CoveredExactly(long, p);
    if p in Covered(short) {
      var k :| 0 <= k < |short| && short[k].Holds(p);
      assert long[k].Holds(p);
    }
    if ranges[i].Holds(p) {
      assert long[i].Holds(p);
    }
    if p in Covered(long) {
      var k :| 0 <= k < |long| && long[k].Holds(p);
      assert k < i ==> short[k].Holds(p);
    }
  }

  /** Accepts and refuses by pairs of ranges, and masks every covered byte and no other. */
  method MaskImmutableRanges(code: string, references: seq<Reference>) returns (outcome: MaskOutcome)
    ensures outcome == Mask(code, references)
  {
    var body := Body(code);
    if !HexBytes(body) {
      return NotHex;
    }
    var decoded := Decode(body);
    var bytes := new Byte[|decoded|](i requires 0 <= i < |decoded| => decoded[i]);
    assert bytes[..] == decoded;
    var inside, declared := CollectRanges(references, bytes.Length);
    if !inside {
      return OutOfBounds;
    }
    SortedChainExactly(declared);
    var ordered := SortByStart(declared);
    forall k | 0 <= k < |ordered| ensures ordered[k].length >= 0 {
      assert ordered[k] in declared;
    }
    var disjoint := NoNeighboursOverlap(ordered);
    if !disjoint {
      return Overlap;
    }
    LengthsCountPositions(declared);
    var maskedBytes := TotalLength(declared);
    if maskedBytes > MAX_MASKED_IMMUTABLE_BYTES {
      return TooBroad;
    }
    ZeroRanges(bytes, declared);
    return Masked("0x" + Encode(bytes[..]), maskedBytes);
  }

  // ---------------------------------------------------------------- declaration order

  /** No position belongs to both. */
  ghost predicate Disjoint(a: Range, b: Range) {
    Positions(a) !! Positions(b)
  }

  lemma ApartExactlyWhenDisjoint(a: Range, b: Range)
    requires a.length > 0 && b.length > 0
    ensures Apart(a, b) <==> Disjoint(a, b)
  {
    if Apart(a, b) {
      forall p ensures !(p in Positions(a) && p in Positions(b)) {
      }
    } else if a.start <= b.start {
      Shared(a, b, b.start);
    } else {
      Shared(a, b, a.start);
    }
  }

  lemma Shared(a: Range, b: Range, p: int)
    requires a.Holds(p) && b.Holds(p)
    ensures !Disjoint(a, b)
  {
    assert p in Positions(a) && p in Positions(b);
  }

  /** Each range once, and no two of them sharing a position: the order plays no part. */
  ghost predicate DisjointSet(ranges: multiset<Range>) {
    && (forall x :: ranges[x] <= 1)
    && (forall x, y :: x in ranges && y in ranges && x != y ==> Disjoint(x, y))
  }

  /** Ranges of positive length are accepted exactly when they are disjoint, in any declaration order. */
  lemma PositiveRangesInAnyOrder(ranges: seq<Range>)
    requires forall i :: 0 <= i < |ranges| ==> ranges[i].length > 0
    ensures PairwiseApart(ranges) <==> DisjointSet(multiset(ranges))
  {
    if PairwiseApart(ranges) {
      ApartIsDisjointSet(ranges);
    }
    if DisjointSet(multiset(ranges)) {
      forall i, j | 0 <= i < j < |ranges| ensures Apart(ranges[i], ranges[j]) {
        ApartExactlyWhenDisjoint(ranges[i], ranges[j]);
        OneOfEach(ranges, i, j);
      }
    }
  }

  lemma ApartIsDisjointSet(ranges: seq<Range>)
    requires PairwiseApart(ranges) && forall i :: 0 <= i < |ranges| ==> ranges[i].length > 0
    ensures DisjointSet(multiset(ranges))
  {
    forall x ensures multiset(ranges)[x] <= 1 {
      ApartOccursOnce(ranges, x);
    }
    forall x, y | x in ranges && y in ranges && x != y ensures Disjoint(x, y) {
      var i :| 0 <= i < |ranges| && ranges[i] == x;
      var j :| 0 <= j < |ranges| && ranges[j] == y;
      ApartExactlyWhenDisjoint(ranges[if i < j then i else j], ranges[if i < j then j else i]);
    }
  }

  lemma {:induction false} ApartOccursOnce(ranges: seq<Range>, x: Range)
    requires PairwiseApart(ranges) && forall i :: 0 <= i < |ranges| ==> ranges[i].length > 0
    ensures multiset(ranges)[x] <= 1
  {
    if ranges != [] {
      var rest := ranges[1..];
      assert ranges == [ranges[0]] + rest;
      PairwiseCons(ranges);
      ApartOccursOnce(rest, x);
      forall i | 0 <= i < |rest| ensures rest[i] != ranges[0] {
        assert Apart(ranges[0], rest[i]);
      }
    }
  }

  lemma OneOfEach(ranges: seq<Range>, i: nat, j: nat)
    requires i < j < |ranges| && multiset(ranges)[ranges[i]] <= 1
    ensures ranges[i] != ranges[j]
  {
    var front, back := ranges[..j], ranges[j..];
    assert ranges == front + back;
    assert multiset(ranges) == multiset(front) + multiset(back);
    assert front[i] in front && back[0] in back;
  }

  /** An empty range is accepted before the one that starts where it does, and refused after it. */
  lemma EmptyRangesDependOnOrder(start: nat, length: nat)
    requires length > 0
    ensures var empty, whole := Range(start, 0), Range(start, length);
            && Disjoint(empty, whole)
            && PairwiseApart([empty, whole])
            && !PairwiseApart([whole, empty])
  {
    var empty, whole := Range(start, 0), Range(start, length);
    assert !Apart([whole, empty][0], [whole, empty][1]);
  }

  // ---------------------------------------------------------------- what agreement of masked codes means

  /** The two codes have the same bytes wherever no declared range lies. */
  ghost predicate SameOutside(a: seq<Byte>, b: seq<Byte>, ranges: seq<Range>) {
    |a| == |b| && forall p :: 0 <= p < |a| && p !in Covered(ranges) ==> a[p] == b[p]
  }

  lemma ZeroedAlikeExactly(a: seq<Byte>, b: seq<Byte>, ranges: seq<Range>)
    ensures ZeroOut(a, ranges) == ZeroOut(b, ranges) <==> SameOutside(a, b, ranges)
  {
    if ZeroOut(a, ranges) == ZeroOut(b, ranges) {
      forall p | 0 <= p < |a| && p !in Covered(ranges) ensures a[p] == b[p] {
        assert ZeroOut(a, ranges)[p] == ZeroOut(b, ranges)[p];
      }
    }
    if SameOutside(a, b, ranges) {
      forall p | 0 <= p < |a| ensures ZeroOut(a, ranges)[p] == ZeroOut(b, ranges)[p] {
      }
    }
  }

  ghost function DifferingPositions(a: seq<Byte>, b: seq<Byte>): set<int>
    requires |a| == |b|
  {
    set p | 0 <= p < |a| && a[p] != b[p]
  }

  lemma SubsetIsSmaller(s: set<int>, t: set<int>)
    requires s <= t
    ensures |s| <= |t|
  {
    var rest := t - s;
    assert t == s + rest && s !! rest;
  }

  /** An artifact's ranges are acceptable for code of that size. */
  ghost predicate Plausible(ranges: seq<Range>, size: nat) {
    InBounds(ranges, size) && PairwiseApart(ranges) && |Covered(ranges)| <= MAX_MASKED_IMMUTABLE_BYTES
  }

  /** Two codes masked alike are the same outside the declared ranges, and the other way round. */
  lemma MaskedAlikeExactly(a: string, b: string, references: seq<Reference>)
    requires HexBytes(Body(a)) && HexBytes(Body(b)) && |Body(a)| == |Body(b)|
    requires Plausible(Declared(references), |Body(a)| / 2)
    ensures var m, n := Mask(a, references), Mask(b, references);
            var x, y := Decode(Body(a)), Decode(Body(b));
            && m.Masked? && n.Masked?
            && (Lower(m.masked) == Lower(n.masked) <==> SameOutside(x, y, Declared(references)))
            && (Lower(m.masked) == Lower(n.masked) ==>
                  |DifferingPositions(x, y)| <= m.maskedBytes <= MAX_MASKED_IMMUTABLE_BYTES)
  {
    var x, y, ranges := Decode(Body(a)), Decode(Body(b)), Declared(references);
    var v, w := ZeroOut(x, ranges), ZeroOut(y, ranges);
    LowerOfMasked(v);
    LowerOfMasked(w);
    ZeroedAlikeExactly(x, y, ranges);
    MaskedTextDecides(v, w);
    if SameOutside(x, y, ranges) {
      assert DifferingPositions(x, y) <= Covered(ranges);
      SubsetIsSmaller(DifferingPositions(x, y), Covered(ranges));
    }
  }

  lemma LowerOfMasked(bytes: seq<Byte>)
    ensures Lower("0x" + Encode(bytes)) == "0x" + Encode(bytes)
  {
    var s := Encode(bytes);
    EncodeIsLowerHex(bytes);
    forall i | 0 <= i < |s| ensures LowerChar(s[i]) == s[i] {
      assert Lower(s)[i] == s[i];
    }
  }

  lemma MaskedTextDecides(v: seq<Byte>, w: seq<Byte>)
    ensures "0x" + Encode(v) == "0x" + Encode(w) <==> v == w
  {
    DecodeEncode(v);
    DecodeEncode(w);
    if "0x" + Encode(v) == "0x" + Encode(w) {
      assert ("0x" + Encode(v))[2..] == Encode(v) && ("0x" + Encode(w))[2..] == Encode(w);
    }
  }

  // ---------------------------------------------------------------- deployed code against the local builds

  datatype Candidate = Candidate(deployedBytecode: string, references: seq<Reference>)

  datatype Comparison =
    | NoArtifact
    | NoCode
    | Matches(index: nat)
    | Unusable(index: nat)
    | NotMaskable(index: nat, why: MaskOutcome)
    | NoBuildMatches

  /** `/^0x[0-9a-fA-F]*$/`. */
  predicate PrefixedHex(code: string) {
    |code| >= 2 && code[0] == '0' && code[1] == 'x' && forall i :: 2 <= i < |code| ==> HexDigit(code[i])
  }

  datatype Judgement = Same | Different | Refused(why: Comparison)

  /** One candidate against the chain's code. */
  ghost function Judge(candidate: Candidate, chainCode: string, index: nat): Judgement {
    var artifactCode, references := candidate.deployedBytecode, candidate.references;
    if !PrefixedHex(artifactCode) then Refused(Unusable(index))
    else if |artifactCode| != |chainCode| then Different
    else
      var artifact, chain := Mask(artifactCode, references), Mask(chainCode, references);
      if !artifact.Masked? then Refused(NotMaskable(index, artifact))
      else if !chain.Masked? then Refused(NotMaskable(index, chain))
      else if Lower(artifact.masked) == Lower(chain.masked) then Same
      else Different
  }

  /** The first candidate that is not merely different decides. */
  ghost predicate Decides(candidates: seq<Candidate>, chainCode: string, index: nat, result: Comparison) {
    && index < |candidates|
    && (forall k :: 0 <= k < index ==> Judge(candidates[k], chainCode, k) == Different)
    && match Judge(candidates[index], chainCode, index)
       case Same => result == Matches(index)
       case Refused(why) => result == why
       case Different => false
  }

  method AssertRuntimeCodeMatchesLocalBuild(getCode: Option<string>, candidates: seq<Candidate>)
    returns (result: Comparison)
    ensures result == NoArtifact <==> candidates == []
    ensures result == NoCode <==> candidates != [] && (getCode == None || getCode == Some("0x"))
    ensures result == NoBuildMatches ==>
              getCode.Some? && forall k :: 0 <= k < |candidates| ==> Judge(candidates[k], getCode.value, k) == Different
    ensures result == NoArtifact || result == NoCode || result == NoBuildMatches
            || (getCode.Some? && exists index :: Decides(candidates, getCode.value, index, result))
  {
    if candidates == [] {
      return NoArtifact;
    }
    if getCode == None || getCode == Some("0x") {
      return NoCode;
    }
    var chainCode := getCode.value;
    for i := 0 to |candidates|
      invariant forall k :: 0 <= k < i ==> Judge(candidates[k], chainCode, k) == Different
    {
      hide Judge;
      var judgement := JudgeCandidate(candidates[i], chainCode, i);
      match judgement {
        case Same =>
          assert Decides(candidates, chainCode, i, Matches(i));
          return Matches(i);
        case Refused(why) =>
          assert Decides(candidates, chainCode, i, why);
          return why;
        case Different =>
      }
    }
    return NoBuildMatches;
  }

  /** One turn of that loop. */
  method JudgeCandidate(candidate: Candidate, chainCode: string, index: nat) returns (judgement: Judgement)
    ensures judgement == Judge(candidate, chainCode, index)
  {
    hide Mask, PrefixedHex, Lower;
    var artifactCode, references := candidate.deployedBytecode, candidate.references;
    if !PrefixedHex(artifactCode) {
      return Refused(Unusable(index));
    }
    if |artifactCode| != |chainCode| {
      return Different;
    }
    var artifact := MaskImmutableRanges(artifactCode, references);
    if !artifact.Masked? {
      return Refused(NotMaskable(index, artifact));
    }
    var chain := MaskImmutableRanges(chainCode, references);
    if !chain.Masked? {
      return Refused(NotMaskable(index, chain));
    }
    return if Lower(artifact.masked) == Lower(chain.masked) then Same else Different;
  }

  // ---------------------------------------------------------------- all of it, said of the texts themselves

  const HEX_DIGITS := "0123456789abcdefABCDEF"

  lemma HexDigitExactly(c: char)
    ensures HexDigit(c) <==> c in HEX_DIGITS
  {
    if HexDigit(c) {
      var i: int := if c <= '9' then c as int - '0' as int
                    else if c <= 'F' then c as int - 'A' as int + 16 else c as int - 'a' as int + 10;
      assert HEX_DIGITS[i] == c;
    }
  }

  /** From place `from` on, an even number of hexadecimal digits and nothing else. */
  ghost predicate HexFrom(code: string, from: nat) {
    from <= |code| && (|code| - from) % 2 == 0 && forall i :: from <= i < |code| ==> code[i] in HEX_DIGITS
  }

  /** Where the digits start: after "0x", or at once. */
  ghost function Start(code: string): nat {
    if "0x" <= code then 2 else 0
  }

  ghost predicate Lies(p: int, ranges: seq<Range>) {
    exists i :: 0 <= i < |ranges| && ranges[i].start <= p < ranges[i].start + ranges[i].length
  }

  ghost predicate Fits(ranges: seq<Range>, size: int) {
    forall i :: 0 <= i < |ranges| ==>
      0 <= ranges[i].start && 0 <= ranges[i].length && ranges[i].start + ranges[i].length <= size
  }

  ghost predicate Separate(ranges: seq<Range>) {
    forall i, j :: 0 <= i < j < |ranges| ==>
      if ranges[i].start <= ranges[j].start then ranges[i].start + ranges[i].length <= ranges[j].start
      else ranges[j].start + ranges[j].length <= ranges[i].start
  }

  /** How many of the first `size` positions lie in a range. */
  ghost function CountIn(ranges: seq<Range>, size: int): nat {
    |set p | 0 <= p < size && Lies(p, ranges)|
  }

  lemma CoveredCounts(ranges: seq<Range>, size: nat)
    requires InBounds(ranges, size)
    ensures CountIn(ranges, size) == |Covered(ranges)|
    ensures forall p :: p in Covered(ranges) <==> Lies(p, ranges)
  {
    forall p ensures p in Covered(ranges) <==> Lies(p, ranges) {
      CoveredExactly(ranges, p);
      assert forall i :: 0 <= i < |ranges| ==> (ranges[i].Holds(p) <==>
                                                  ranges[i].start <= p < ranges[i].start + ranges[i].length);
    }
    forall p | Lies(p, ranges) ensures 0 <= p < size {
      var i :| 0 <= i < |ranges| && ranges[i].start <= p < ranges[i].start + ranges[i].length;
      assert Within(ranges[i], size);
    }
    assert (set p | 0 <= p < size && Lies(p, ranges)) == Covered(ranges);
  }

  lemma BodyFromStart(code: string)
    ensures Start(code) <= |code| && Body(code) == code[Start(code)..]
    ensures HexBytes(Body(code)) <==> HexFrom(code, Start(code))
  {
    var from, body := Start(code), Body(code);
    assert "0x" <= code <==> |code| >= 2 && code[0] == '0' && code[1] == 'x';
    assert |body| == |code| - from && forall i :: 0 <= i < |body| ==> body[i] == code[from + i];
    if HexBytes(body) {
      forall i | from <= i < |code| ensures code[i] in HEX_DIGITS {
        assert HexDigit(body[i - from]);
        HexDigitExactly(code[i]);
      }
    }
    if HexFrom(code, from) {
      forall i | 0 <= i < |body| ensures HexDigit(body[i]) {
        HexDigitExactly(code[from + i]);
      }
    }
  }

  /** At position `p` the masked text has two zeros, or else the code's own two digits in some case. */
  ghost predicate CarriesAt(masked: string, code: string, from: nat, p: nat, zeroed: bool) {
    && from + 2 * p + 1 < |code| && 2 + 2 * p + 1 < |masked|
    && if zeroed then masked[2 + 2 * p] == '0' && masked[2 + 2 * p + 1] == '0'
       else SameLetter(masked[2 + 2 * p], code[from + 2 * p])
            && SameLetter(masked[2 + 2 * p + 1], code[from + 2 * p + 1])
  }

  /** The masked text is zero in every range, and everywhere else has the code's own digits, in lower case. */
  ghost predicate Carries(masked: string, code: string, ranges: seq<Range>) {
    var from := Start(code);
    && |masked| == 2 + (|code| - from) && "0x" <= masked
    && (forall i :: 0 <= i < |masked| ==> !('A' <= masked[i] <= 'Z'))
    && forall p :: 0 <= p < (|code| - from) / 2 ==> CarriesAt(masked, code, from, p, Lies(p, ranges))
  }

  /** Masking refuses for the first of four reasons that applies, and otherwise keeps every digit outside the ranges. */
  lemma MaskedExactly(code: string, references: seq<Reference>)
    ensures var from, ranges := Start(code), Declared(references);
            var size := (|code| - from) / 2;
            match Mask(code, references)
            case NotHex => !HexFrom(code, from)
            case OutOfBounds => HexFrom(code, from) && !Fits(ranges, size)
            case Overlap => HexFrom(code, from) && Fits(ranges, size) && !Separate(ranges)
            case TooBroad =>
              HexFrom(code, from) && Fits(ranges, size) && Separate(ranges) && CountIn(ranges, size) > 2048
            case Masked(masked, maskedBytes) =>
              && HexFrom(code, from) && Fits(ranges, size) && Separate(ranges)
              && maskedBytes == CountIn(ranges, size) <= 2048
              && Carries(masked, code, ranges)
  {
    hide Body, HexBytes, HexFrom, Start, Carries, InBounds, Fits, PairwiseApart, Separate, Encode, ZeroOut, Decode;
    hide CountIn, Lies, Covered;
    var from, ranges, body := Start(code), Declared(references), Body(code);
    var size := (|code| - from) / 2;
    BodyFromStart(code);
    assert |body| / 2 == size;
    LayoutExactly(ranges, size);
    if HexBytes(body) && InBounds(ranges, size) {
      CoveredCounts(ranges, size);
      MaskedTextCarries(code, ranges);
    }
  }

  lemma LayoutExactly(ranges: seq<Range>, size: nat)
    ensures InBounds(ranges, size) <==> Fits(ranges, size)
    ensures PairwiseApart(ranges) <==> Separate(ranges)
  {
    if Fits(ranges, size) {
      forall i | 0 <= i < |ranges| ensures Within(ranges[i], size) {
      }
    }
    if InBounds(ranges, size) {
      forall i | 0 <= i < |ranges|
        ensures 0 <= ranges[i].start && 0 <= ranges[i].length && ranges[i].start + ranges[i].length <= size {
        assert Within(ranges[i], size);
      }
    }
    if PairwiseApart(ranges) {
      forall i, j | 0 <= i < j < |ranges|
        ensures if ranges[i].start <= ranges[j].start then ranges[i].start + ranges[i].length <= ranges[j].start
                else ranges[j].start + ranges[j].length <= ranges[i].start {
        assert Apart(ranges[i], ranges[j]);
      }
    }
  }

  lemma MaskedTextCarries(code: string, ranges: seq<Range>)
    requires HexBytes(Body(code))
    requires forall p :: p in Covered(ranges) <==> Lies(p, ranges)
    ensures Carries("0x" + Encode(ZeroOut(Decode(Body(code)), ranges)), code, ranges)
  {
    var from, bytes := Start(code), ZeroOut(Decode(Body(code)), ranges);
    var masked := "0x" + Encode(bytes);
    BodyFromStart(code);
    NoCapitals(bytes);
    hide Body, HexBytes, Encode, Decode, Lies, Covered, HexFrom, CarriesAt;
    forall p | 0 <= p < (|code| - from) / 2 ensures CarriesAt(masked, code, from, p, Lies(p, ranges)) {
      PairCarried(code, bytes, p, Lies(p, ranges));
    }
  }

  lemma NoCapitals(bytes: seq<Byte>)
    ensures forall i :: 0 <= i < |"0x" + Encode(bytes)| ==> !('A' <= ("0x" + Encode(bytes))[i] <= 'Z')
  {
    forall i | 0 <= i < |Encode(bytes)| ensures !('A' <= Encode(bytes)[i] <= 'Z') {
    }
    hide Encode;
    assert forall i :: 2 <= i < |"0x" + Encode(bytes)| ==> ("0x" + Encode(bytes))[i] == Encode(bytes)[i - 2];
  }

  lemma PairCarried(code: string, bytes: seq<Byte>, p: nat, zeroed: bool)
    requires HexBytes(Body(code)) && |bytes| == |Body(code)| / 2 && p < |bytes|
    requires bytes[p] == if zeroed then 0 else Decode(Body(code))[p]
    ensures CarriesAt("0x" + Encode(bytes), code, Start(code), p, zeroed)
  {
    var body, text, from := Body(code), Encode(bytes), Start(code);
    BodyFromStart(code);
    CarriedPair(body, bytes, p, zeroed);
    hide Body, HexBytes, HexFrom, Encode, Decode, Start, SameLetter, CarriesAt;
    PairShifted(text, body, code, from, p, zeroed);
  }

  lemma PairShifted(text: string, body: string, code: string, from: nat, p: nat, zeroed: bool)
    requires from <= |code| && body == code[from..] && p < |body| / 2 && 2 * p + 1 < |text|
    requires if zeroed then text[2 * p] == '0' && text[2 * p + 1] == '0'
             else SameLetter(text[2 * p], body[2 * p]) && SameLetter(text[2 * p + 1], body[2 * p + 1])
    ensures CarriesAt("0x" + text, code, from, p, zeroed)
  {
    hide SameLetter;
    assert body[2 * p] == code[from + 2 * p] && body[2 * p + 1] == code[from + 2 * p + 1];
    assert ("0x" + text)[2 + 2 * p] == text[2 * p] && ("0x" + text)[2 + 2 * p + 1] == text[2 * p + 1];
  }

  lemma CarriedPair(body: string, bytes: seq<Byte>, p: nat, zeroed: bool)
    requires HexBytes(body) && |bytes| == |body| / 2 && p < |bytes|
    requires bytes[p] == if zeroed then 0 else Decode(body)[p]
    ensures var text := Encode(bytes);
            if zeroed then text[2 * p] == '0' && text[2 * p + 1] == '0'
            else SameLetter(text[2 * p], body[2 * p]) && SameLetter(text[2 * p + 1], body[2 * p + 1])
  {
    assert 2 * p / 2 == p && (2 * p + 1) / 2 == p;
    if !zeroed {
      EncodedPair(body, p);
      assert Encode(Decode(body))[2 * p] == LowerDigit(Decode(body)[p] / 16);
      assert Encode(Decode(body))[2 * p + 1] == LowerDigit(Decode(body)[p] % 16);
    }
  }

  lemma PrefixedExactly(code: string)
    ensures PrefixedHex(code) ==> "0x" <= code
    ensures "0x" <= code ==> Start(code) == 2
    ensures PrefixedHex(code) && |code| % 2 == 0 <==> "0x" <= code && HexFrom(code, 2)
  {
    assert "0x" <= code <==> |code| >= 2 && code[0] == '0' && code[1] == 'x';
    forall i | 0 <= i < |code| ensures HexDigit(code[i]) <==> code[i] in HEX_DIGITS {
      HexDigitExactly(code[i]);
    }
    hide HexDigit;
  }

  lemma MaskedLengths(m: string, n: string, a: string, b: string, ranges: seq<Range>)
    requires Carries(m, a, ranges) && Carries(n, b, ranges) && "0x" <= a && |a| == |b|
    ensures Start(a) == 2 && ("0x" <= b ==> Start(b) == 2) && ("0x" <= b <==> |m| == |n|)
  {
  }

  /** Masked texts have the same letters exactly when the codes have the same digits outside the ranges. */
  lemma CarriedAlikeExactly(m: string, n: string, a: string, b: string, ranges: seq<Range>)
    requires Carries(m, a, ranges) && Carries(n, b, ranges)
    requires "0x" <= a && "0x" <= b && |a| == |b| && |a| % 2 == 0
    ensures SameLetters(m, n)
            <==> forall p :: 0 <= p < (|a| - 2) / 2 && !Lies(p, ranges) ==>
                   SameLetter(a[2 + 2 * p], b[2 + 2 * p]) && SameLetter(a[3 + 2 * p], b[3 + 2 * p])
  {
    var size := (|a| - 2) / 2;
    hide Lies;
    forall p | 0 <= p < size ensures CarriesAt(m, a, 2, p, Lies(p, ranges)) && CarriesAt(n, b, 2, p, Lies(p, ranges)) {
      assert Start(a) == 2 && Start(b) == 2;
    }
    if SameLetters(m, n) {
      forall p | 0 <= p < size && !Lies(p, ranges)
        ensures SameLetter(a[2 + 2 * p], b[2 + 2 * p]) && SameLetter(a[3 + 2 * p], b[3 + 2 * p])
      {
        assert CarriesAt(m, a, 2, p, Lies(p, ranges)) && CarriesAt(n, b, 2, p, Lies(p, ranges));
        assert SameLetter(m[2 + 2 * p], n[2 + 2 * p]) && SameLetter(m[2 + 2 * p + 1], n[2 + 2 * p + 1]);
      }
    }
    if forall p :: 0 <= p < size && !Lies(p, ranges) ==>
         SameLetter(a[2 + 2 * p], b[2 + 2 * p]) && SameLetter(a[3 + 2 * p], b[3 + 2 * p]) {
      forall i | 0 <= i < |m| ensures SameLetter(m[i], n[i]) {
        if i >= 2 {
          var p := (i - 2) / 2;
          assert i == 2 + 2 * p || i == 2 + 2 * p + 1;
          assert CarriesAt(m, a, 2, p, Lies(p, ranges)) && CarriesAt(n, b, 2, p, Lies(p, ranges));
          assert !Lies(p, ranges) ==> SameLetter(a[2 + 2 * p], b[2 + 2 * p]);
        } else {
          assert m[0] == n[0] && m[1] == n[1];
        }
      }
    }
  }

  /**
   A candidate is judged the same exactly when both codes are "0x" and whole hex bytes, of one length,
   the candidate's layout is plausible, and at every position in no range both have the same digits.
   */
  lemma SameExactly(candidate: Candidate, chainCode: string, index: nat)
    ensures var a, b, ranges := candidate.deployedBytecode, chainCode, Declared(candidate.references);
            var size := (|a| - 2) / 2;
            Judge(candidate, b, index) == Same
            <==> && "0x" <= a && "0x" <= b && HexFrom(a, 2) && HexFrom(b, 2) && |a| == |b|
                 && Fits(ranges, size) && Separate(ranges) && CountIn(ranges, size) <= 2048
                 && forall p :: 0 <= p < size && !Lies(p, ranges) ==>
                      SameLetter(a[2 + 2 * p], b[2 + 2 * p]) && SameLetter(a[3 + 2 * p], b[3 + 2 * p])
  {
    var a, b, ranges := candidate.deployedBytecode, chainCode, Declared(candidate.references);
    hide Mask, Lower, Fits, Separate, CountIn, Lies, HexFrom, SameLetter, Carries, Start, PrefixedHex;
    MaskedExactly(a, candidate.references);
    MaskedExactly(b, candidate.references);
    PrefixedExactly(a);
    PrefixedExactly(b);
    var m, n := Mask(a, candidate.references), Mask(b, candidate.references);
    if m.Masked? && n.Masked? && "0x" <= a && |a| == |b| {
      LowerExactly(m.masked, n.masked);
      MaskedLengths(m.masked, n.masked, a, b, ranges);
      if "0x" <= b {
        CarriedAlikeExactly(m.masked, n.masked, a, b, ranges);
      }
    }
  }

  ghost predicate Maskable(code: string, references: seq<Reference>) {
    var from, ranges := Start(code), Declared(references);
    var size := (|code| - from) / 2;
    HexFrom(code, from) && Fits(ranges, size) && Separate(ranges) && CountIn(ranges, size) <= 2048
  }

  /**
   The comparison is given up only for a candidate that is not "0x" and hex digits, or for codes of one
   length of which one cannot be masked, the candidate's named first; otherwise the two are the same or
   different.
   */
  lemma RefusedExactly(candidate: Candidate, chainCode: string, index: nat)
    ensures var a, b, references := candidate.deployedBytecode, chainCode, candidate.references;
            var judgement := Judge(candidate, b, index);
            var usable := "0x" <= a && forall i :: 2 <= i < |a| ==> a[i] in HEX_DIGITS;
            && (judgement == Refused(Unusable(index)) <==> !usable)
            && (judgement == Refused(NotMaskable(index, Mask(a, references)))
                <== usable && |a| == |b| && !Maskable(a, references))
            && (judgement == Refused(NotMaskable(index, Mask(b, references)))
                <== usable && |a| == |b| && Maskable(a, references) && !Maskable(b, references))
            && (judgement.Refused? ==>
                  !usable || (|a| == |b| && !(Maskable(a, references) && Maskable(b, references))))
  {
    var a, b, references := candidate.deployedBytecode, chainCode, candidate.references;
    assert "0x" <= a <==> |a| >= 2 && a[0] == '0' && a[1] == 'x';
    forall i | 2 <= i < |a| ensures HexDigit(a[i]) <==> a[i] in HEX_DIGITS {
      HexDigitExactly(a[i]);
    }
    MaskableExactly(a, references);
    MaskableExactly(b, references);
    hide HexDigit, Mask, Maskable, Lower;
  }

  lemma MaskableExactly(code: string, references: seq<Reference>)
    ensures Mask(code, references).Masked? <==> Maskable(code, references)
  {
    hide Mask, HexFrom, Fits, Separate, CountIn, Carries;
    MaskedExactly(code, references);
  }

  /** How many ranges the first `k` references declare. */
  ghost function RangesBefore(references: seq<Reference>, k: nat): nat
    requires k <= |references|
  {
    if k == 0 then 0 else RangesBefore(references, k - 1) + |references[k - 1].ranges|
  }

  /** The declared ranges are those of every reference, one reference after another, and no more. */
  lemma {:induction false} DeclaredExactly(references: seq<Reference>)
    ensures |Declared(references)| == RangesBefore(references, |references|)
    ensures forall k, j :: 0 <= k < |references| && 0 <= j < |references[k].ranges| ==>
              DeclaredInPlace(references, Declared(references), k, j)
  {
    if references != [] {
      var n := |references| - 1;
      DeclaredExactly(references[..n]);
      RangesBeforePrefix(references, n, n);
      forall k, j | 0 <= k <= n && 0 <= j < |references[k].ranges|
        ensures DeclaredInPlace(references, Declared(references), k, j)
      {
        RangesBeforePrefix(references, n, k);
        if k < n {
          assert references[..n][k] == references[k];
          assert DeclaredInPlace(references[..n], Declared(references[..n]), k, j);
        }
      }
    }
  }

  ghost predicate DeclaredInPlace(references: seq<Reference>, declared: seq<Range>, k: nat, j: nat)
    requires k < |references| && j < |references[k].ranges|
  {
    RangesBefore(references, k) + j < |declared|
    && declared[RangesBefore(references, k) + j] == references[k].ranges[j]
  }

  lemma {:induction false} RangesBeforePrefix(references: seq<Reference>, n: nat, k: nat)
    requires k <= n <= |references|
    ensures RangesBefore(references[..n], k) == RangesBefore(references, k)
  {
    if k > 0 {
      RangesBeforePrefix(references, n, k - 1);
    }
  }
}
