/**
 The hash table from colours to their nearest entry in the colour table: buckets
 of three slots, and steps of 257 from bucket to bucket.
 */
module ColourCache {
  import opened Basics
  import opened Palette
  import Modular

  const BUCKETS := 98317
  const STEP := 257

  /** The inverse of the step: 257 * 47437 == 124 * 98317 + 1. */
  const INVERSE := 47437

  const UNSET := 0xFFFF_FFFF

  predicate IsSet(code: int) {
    code / 0x8000_0000 == 0
  }

  function Code(c: Colour): int {
    c.red + c.green * 256 + c.blue * 65536
  }

  lemma CodeTellsColours(a: Colour, b: Colour)
    requires ValidColour(a) && ValidColour(b) && Code(a) == Code(b)
    ensures a == b
  {
  }

  // ---------------------------------------------------------------- the probe path

  function Next(i: int): int {
    if i + STEP >= BUCKETS then i + STEP - BUCKETS else i + STEP
  }

  /** How many steps from bucket `home` to bucket `i`. */
  function Pos(home: int, i: int): int {
    (i - home) * INVERSE % BUCKETS
  }

  lemma PosInRange(home: int, i: int)
    ensures 0 <= Pos(home, i) < BUCKETS && Pos(home, home) == 0
  {
  }

  /** A step leads one bucket on, until the path closes. */
  lemma PosNext(home: int, i: int)
    requires 0 <= home < BUCKETS && 0 <= i < BUCKETS && Pos(home, i) < BUCKETS - 1
    ensures 0 <= Next(i) < BUCKETS && Pos(home, Next(i)) == Pos(home, i) + 1
  {
    var x := (i - home) * INVERSE;
    var wraps := if i + STEP >= BUCKETS then 1 else 0;
    Modular.DivModUnique((Next(i) - home) * INVERSE, BUCKETS, x / BUCKETS + 124 - wraps * INVERSE, x % BUCKETS + 1);
  }

  /** Every bucket is on the path, and only once, since the step is coprime to the size. */
  lemma PosInjective(home: int, i: int, j: int)
    requires 0 <= i < BUCKETS && 0 <= j < BUCKETS && Pos(home, i) == Pos(home, j)
    ensures i == j
  {
    var x, y := (i - home) * INVERSE, (j - home) * INVERSE;
    var k := x / BUCKETS - y / BUCKETS;
    assert x - y == k * BUCKETS;
    assert (i - j) * INVERSE * STEP == k * STEP * BUCKETS;
    assert (i - j) * INVERSE * STEP == (i - j) * 124 * BUCKETS + (i - j);
    assert i - j == (k * STEP - (i - j) * 124) * BUCKETS;
  }

  // -------------------------------------------------------------------- the table

  datatype Bucket = Bucket(code1: int, index1: int, code2: int, index2: int, code3: int, index3: int)

  function SlotCode(b: Bucket, s: int): int {
    if s == 0 then b.code1 else if s == 1 then b.code2 else b.code3
  }

  function SlotIndex(b: Bucket, s: int): int {
    if s == 0 then b.index1 else if s == 1 then b.index2 else b.index3
  }

  function Fill(b: Bucket, s: int, code: int, index: int): Bucket {
    if s == 0 then b.(code1 := code, index1 := index)
    else if s == 1 then b.(code2 := code, index2 := index)
    else b.(code3 := code, index3 := index)
  }

  predicate Full(b: Bucket) {
    IsSet(b.code1) && IsSet(b.code2) && IsSet(b.code3)
  }

  predicate Lacks(b: Bucket, code: int) {
    b.code1 != code && b.code2 != code && b.code3 != code
  }

  /** Slot `s` of bucket `i` holds `code`. */
  ghost predicate Holds(t: seq<Bucket>, i: int, s: int, code: int) {
    0 <= i < |t| && 0 <= s < 3 && IsSet(code) && SlotCode(t[i], s) == code
  }

  ghost predicate Stored(t: seq<Bucket>, code: int) {
    exists i, s :: Holds(t, i, s, code)
  }

  /** The slots of a bucket fill in order. */
  ghost predicate Tidy(b: Bucket) {
    (IsSet(b.code2) ==> IsSet(b.code1)) && (IsSet(b.code3) ==> IsSet(b.code2))
  }

  /** All buckets on the way from `home` to `i` are full. */
  ghost predicate PathFull(t: seq<Bucket>, home: int, i: int) {
    forall x :: 0 <= x < |t| && Pos(home, x) < Pos(home, i) ==> Full(t[x])
  }

  ghost predicate NearestFor(pal: seq<Colour>, noData: int, code: int, index: int) {
    exists c :: ValidColour(c) && Code(c) == code && IsNearest(pal, noData, c, index)
  }

  /** A stored colour has its nearest entry with it, and can be found from its home bucket. */
  ghost predicate Placed(t: seq<Bucket>, pal: seq<Colour>, noData: int, i: int, s: int)
    requires 0 <= i < |t|
  {
    var code := SlotCode(t[i], s);
    NearestFor(pal, noData, code, SlotIndex(t[i], s)) && PathFull(t, code % BUCKETS, i)
  }

  /** No colour is stored twice. */
  ghost predicate NoDuplicates(t: seq<Bucket>) {
    forall i, s, j, u, code :: Holds(t, i, s, code) && Holds(t, j, u, code) ==> i == j && s == u
  }

  ghost predicate AllPlaced(t: seq<Bucket>, pal: seq<Colour>, noData: int) {
    forall i, s, code :: Holds(t, i, s, code) ==> Placed(t, pal, noData, i, s)
  }

  ghost predicate ValidTable(t: seq<Bucket>, pal: seq<Colour>, noData: int) {
    && |t| == BUCKETS
    && (forall i :: 0 <= i < |t| ==> Tidy(t[i]))
    && AllPlaced(t, pal, noData)
    && NoDuplicates(t)
  }

  /** Nothing on the way from a colour's home to bucket `i` holds it or has room for it. */
  ghost predicate SearchedTo(t: seq<Bucket>, code: int, i: int) {
    && PathFull(t, code % BUCKETS, i)
    && forall x :: 0 <= x < |t| && Pos(code % BUCKETS, x) < Pos(code % BUCKETS, i) ==> Lacks(t[x], code)
  }

  lemma SearchGoesOn(t: seq<Bucket>, code: int, i: int)
    requires |t| == BUCKETS && 0 <= i < BUCKETS && SearchedTo(t, code, i)
    requires Full(t[i]) && Lacks(t[i], code) && Pos(code % BUCKETS, i) < BUCKETS - 1
    ensures 0 <= Next(i) < BUCKETS && Pos(code % BUCKETS, Next(i)) == Pos(code % BUCKETS, i) + 1
    ensures SearchedTo(t, code, Next(i))
  {
    var home := code % BUCKETS;
    PosNext(home, i);
    hide Pos;
    hide Next;
    forall x | 0 <= x < |t| && Pos(home, x) < Pos(home, Next(i))
      ensures Full(t[x]) && Lacks(t[x], code)
    {
      if Pos(home, x) == Pos(home, i) {
        PosInjective(home, x, i);
      }
    }
  }

  /** A bucket with room lies further on. */
  lemma RoomAhead(t: seq<Bucket>, code: int, i: int, room: int)
    requires |t| == BUCKETS && 0 <= i < BUCKETS && SearchedTo(t, code, i) && Full(t[i])
    requires 0 <= room < BUCKETS && !Full(t[room])
    ensures Pos(code % BUCKETS, i) < BUCKETS - 1
  {
    var home := code % BUCKETS;
    PosInRange(home, room);
    PosInRange(home, i);
    hide Pos;
    if Pos(home, room) == Pos(home, i) {
      PosInjective(home, room, i);
    }
  }

  /** A search that ends at a bucket with room, without success, proves the colour is not stored. */
  lemma NotStored(t: seq<Bucket>, pal: seq<Colour>, noData: int, code: int, i: int)
    requires ValidTable(t, pal, noData) && 0 <= i < BUCKETS && IsSet(code) && SearchedTo(t, code, i)
    requires !Full(t[i]) && Lacks(t[i], code)
    ensures !Stored(t, code)
  {
    var home := code % BUCKETS;
    forall j, u | Holds(t, j, u, code)
      ensures false
    {
      assert Placed(t, pal, noData, j, u);
      hide Pos;
      assert !(Pos(home, i) < Pos(home, j));
      assert !(Pos(home, j) < Pos(home, i));
      PosInjective(home, j, i);
    }
  }

  // -------------------------------------------------------------- storing a colour

  /** Slot `s` is the first free one of its bucket. */
  predicate FirstFree(b: Bucket, s: int) {
    && 0 <= s < 3 && !IsSet(SlotCode(b, s))
    && (s >= 1 ==> IsSet(b.code1)) && (s >= 2 ==> IsSet(b.code2))
  }

  lemma HoldsAfter(t: seq<Bucket>, i: int, s: int, code: int, index: int, j: int, u: int, other: int)
    requires 0 <= i < |t| && FirstFree(t[i], s) && IsSet(code)
    ensures Holds(t[i := Fill(t[i], s, code, index)], j, u, other) <==> Holds(t, j, u, other) || (j == i && u == s && other == code)
  {
  }

  lemma PathStaysFull(t: seq<Bucket>, i: int, s: int, code: int, index: int, home: int, j: int)
    requires 0 <= i < |t| && IsSet(code) && PathFull(t, home, j)
    ensures PathFull(t[i := Fill(t[i], s, code, index)], home, j)
  {
    hide Pos;
    var t' := t[i := Fill(t[i], s, code, index)];
    forall x | 0 <= x < |t'| && Pos(home, x) < Pos(home, j)
      ensures Full(t'[x])
    {
      assert Full(t[x]);
    }
  }

  lemma StoringKeepsPlaced(t: seq<Bucket>, pal: seq<Colour>, noData: int, i: int, s: int, code: int, index: int)
    requires 0 <= i < |t| && FirstFree(t[i], s) && IsSet(code) && AllPlaced(t, pal, noData)
    requires NearestFor(pal, noData, code, index) && PathFull(t, code % BUCKETS, i)
    ensures AllPlaced(t[i := Fill(t[i], s, code, index)], pal, noData)
  {
    var t' := t[i := Fill(t[i], s, code, index)];
    hide PathFull;
    hide NearestFor;
    forall j, u, other | Holds(t', j, u, other)
      ensures Placed(t', pal, noData, j, u)
    {
      HoldsAfter(t, i, s, code, index, j, u, other);
      if Holds(t, j, u, other) {
        assert Placed(t, pal, noData, j, u);
        PathStaysFull(t, i, s, code, index, other % BUCKETS, j);
      } else {
        PathStaysFull(t, i, s, code, index, code % BUCKETS, i);
      }
    }
  }

  lemma StoringKeepsValid(t: seq<Bucket>, pal: seq<Colour>, noData: int, i: int, s: int, code: int, index: int)
    requires ValidTable(t, pal, noData) && 0 <= i < BUCKETS && FirstFree(t[i], s) && IsSet(code)
    requires NearestFor(pal, noData, code, index) && PathFull(t, code % BUCKETS, i) && !Stored(t, code)
    ensures ValidTable(t[i := Fill(t[i], s, code, index)], pal, noData)
  {
    var t' := t[i := Fill(t[i], s, code, index)];
    hide PathFull;
    hide NearestFor;
    StoringKeepsPlaced(t, pal, noData, i, s, code, index);
    hide AllPlaced;
    forall j, u, k, v, other | Holds(t', j, u, other) && Holds(t', k, v, other)
      ensures j == k && u == v
    {
      HoldsAfter(t, i, s, code, index, j, u, other);
      HoldsAfter(t, i, s, code, index, k, v, other);
    }
  }

  lemma StoredAfter(t: seq<Bucket>, i: int, s: int, code: int, index: int, other: int)
    requires 0 <= i < |t| && FirstFree(t[i], s) && IsSet(code)
    ensures Stored(t[i := Fill(t[i], s, code, index)], other) <==> Stored(t, other) || other == code
  {
    var t' := t[i := Fill(t[i], s, code, index)];
    if Stored(t', other) {
      var j, u :| Holds(t', j, u, other);
      HoldsAfter(t, i, s, code, index, j, u, other);
    }
    if Stored(t, other) {
      var j, u :| Holds(t, j, u, other);
      HoldsAfter(t, i, s, code, index, j, u, other);
    }
    HoldsAfter(t, i, s, code, index, i, s, code);
  }

  // ------------------------------------------------------- how many colours there are

  ghost function Codes(t: seq<Bucket>): set<int> {
    set code | 0 <= code < 0x100_0000 && Stored(t, code)
  }

  ghost function FirstCodes(t: seq<Bucket>, n: nat): set<int>
    requires n <= |t|
  {
    if n == 0 then {} else FirstCodes(t, n - 1) + {t[n - 1].code1}
  }

  lemma DifferentFirstCodes(t: seq<Bucket>, i: int, j: int)
    requires NoDuplicates(t) && 0 <= i < j < |t| && IsSet(t[i].code1)
    ensures t[i].code1 != t[j].code1
  {
    var code := t[i].code1;
    assert Holds(t, i, 0, code);
    assert Holds(t, j, 0, code) <==> t[j].code1 == code;
  }

  lemma {:induction false} FirstCodesCount(t: seq<Bucket>, n: nat)
    requires NoDuplicates(t) && n <= |t|
    requires forall i :: 0 <= i < |t| ==> IsSet(t[i].code1)
    ensures |FirstCodes(t, n)| == n
    ensures forall code :: code in FirstCodes(t, n) ==> exists i :: 0 <= i < n && t[i].code1 == code
  {
    hide IsSet;
    if n > 0 {
      FirstCodesCount(t, n - 1);
      var code := t[n - 1].code1;
      if code in FirstCodes(t, n - 1) {
        var i :| 0 <= i < n - 1 && t[i].code1 == code;
        DifferentFirstCodes(t, i, n - 1);
      }
    }
  }

  lemma CodeInRange(t: seq<Bucket>, pal: seq<Colour>, noData: int, i: int, code: int)
    requires ValidTable(t, pal, noData) && Holds(t, i, 0, code)
    ensures 0 <= code < 0x100_0000
  {
    assert Placed(t, pal, noData, i, 0);
  }

  /** While there are fewer colours than buckets, some bucket has room. */
  lemma SomeRoom(t: seq<Bucket>, pal: seq<Colour>, noData: int) returns (room: int)
    requires ValidTable(t, pal, noData) && |Codes(t)| < BUCKETS
    ensures 0 <= room < BUCKETS && !Full(t[room])
  {
    if forall i :: 0 <= i < BUCKETS ==> Full(t[i]) {
      FirstCodesCount(t, BUCKETS);
      forall code | code in FirstCodes(t, BUCKETS)
        ensures code in Codes(t)
      {
        var i :| 0 <= i < BUCKETS && t[i].code1 == code;
        assert Full(t[i]);
        assert Holds(t, i, 0, code);
        CodeInRange(t, pal, noData, i, code);
      }
      SubsetSize(FirstCodes(t, BUCKETS), Codes(t));
      assert false;
    }
    room :| 0 <= room < BUCKETS && !Full(t[room]);
  }

  // ------------------------------------------------------------------- looking up

  class ColourTable {
    const pal: seq<Colour>
    const noData: int
    const buckets: array<Bucket>

    ghost predicate Valid()
      reads this, buckets
    {
      ValidPalette(pal) && buckets.Length == BUCKETS && ValidTable(buckets[..], pal, noData)
    }

    constructor (pal: seq<Colour>, noData: int)
      requires ValidPalette(pal)
      ensures Valid() && Codes(buckets[..]) == {} && fresh(buckets)
      ensures this.pal == pal && this.noData == noData
    {
      this.pal, this.noData := pal, noData;
      buckets := new Bucket[BUCKETS](_ => Bucket(UNSET, 255, UNSET, 255, UNSET, 255));
      new;
      assert forall i, s, code :: !Holds(buckets[..], i, s, code);
    }

    /** Stores a colour with its nearest entry in the first free slot of a bucket. */
    method StoreIn(i: int, s: int, c: Colour) returns (index: int)
      requires Valid() && ValidColour(c) && 0 <= i < BUCKETS && SearchedTo(buckets[..], Code(c), i)
      requires FirstFree(buckets[i], s) && Lacks(buckets[i], Code(c))
      modifies buckets
      ensures Valid() && IsNearest(pal, noData, c, index)
      ensures forall code :: Stored(buckets[..], code) <==> old(Stored(buckets[..], code)) || code == Code(c)
    {
      var code := Code(c);
      CodeIsSet(c);
      ghost var t := buckets[..];
      index := FindNearestColour(pal, c, noData);
      NotStored(t, pal, noData, code, i);
      assert NearestFor(pal, noData, code, index);
      hide Code;
      hide IsSet;
      hide IsNearest;
      StoringKeepsValid(t, pal, noData, i, s, code, index);
      hide ValidTable;
      forall other
        ensures Stored(t[i := Fill(t[i], s, code, index)], other) <==> Stored(t, other) || other == code
      {
        StoredAfter(t, i, s, code, index, other);
      }
      hide Stored;
      buckets[i] := Fill(buckets[i], s, code, index);
      assert buckets[..] == t[i := Fill(t[i], s, code, index)];
    }

    /** Slot by slot through one bucket: the colour is found, or stored in the first free slot, or the search goes on. */
    method VisitBucket(i: int, c: Colour) returns (done: bool, index: int)
      requires Valid() && ValidColour(c) && 0 <= i < BUCKETS && SearchedTo(buckets[..], Code(c), i)
      modifies buckets
      ensures Valid()
      ensures !done ==> buckets[..] == old(buckets[..]) && Full(buckets[i]) && Lacks(buckets[i], Code(c))
      ensures done ==> IsNearest(pal, noData, c, index)
      ensures done ==> forall code :: Stored(buckets[..], code) <==> old(Stored(buckets[..], code)) || code == Code(c)
    {
      var code := Code(c);
      CodeIsSet(c);
      ghost var t := buckets[..];
      assert Tidy(t[i]);
      hide Code;
      hide IsSet;
      hide IsNearest;
      hide Stored;
      hide ValidTable;
      hide SearchedTo;
      for s := 0 to 3
        invariant buckets[..] == t
        invariant forall u :: 0 <= u < s ==> IsSet(SlotCode(t[i], u)) && SlotCode(t[i], u) != code
      {
        if SlotCode(buckets[i], s) == code {
          FoundIsNearest(t, pal, noData, i, s, c);
          return true, SlotIndex(buckets[i], s);
        }
        if !IsSet(SlotCode(buckets[i], s)) {
          SlotIsFree(t[i], s, code);
          index := StoreIn(i, s, c);
          return true, index;
        }
      }
      assert forall u :: 0 <= u < 3 ==> SlotCode(t[i], u) != code;
      assert SlotCode(t[i], 0) != code && SlotCode(t[i], 1) != code && SlotCode(t[i], 2) != code;
      done, index := false, 0;
    }

    /** All three slots are taken by other colours. */
    predicate Passes(i: int, code: int)
      requires 0 <= i < buckets.Length
      reads buckets
    {
      Full(buckets[i]) && Lacks(buckets[i], code)
    }

    /** On from bucket to bucket until one holds the colour or has room. */
    method SkipBuckets(start: int, code: int, ghost room: int) returns (i: int)
      requires Valid() && 0 <= start < BUCKETS && SearchedTo(buckets[..], code, start) && Passes(start, code)
      requires 0 <= room < BUCKETS && !Full(buckets[room])
      ensures 0 <= i < BUCKETS && SearchedTo(buckets[..], code, i) && !Passes(i, code)
      ensures Pos(code % BUCKETS, start) < Pos(code % BUCKETS, i)
    {
      hide Pos;
      hide ValidTable;
      hide SearchedTo;
      ghost var t := buckets[..];
      RoomAhead(t, code, start, room);
      SearchGoesOn(t, code, start);
      i := Next(start);
      while Passes(i, code)
        invariant 0 <= i < BUCKETS && SearchedTo(t, code, i)
        invariant Pos(code % BUCKETS, start) < Pos(code % BUCKETS, i)
        decreases BUCKETS - Pos(code % BUCKETS, i)
      {
        RoomAhead(t, code, i, room);
        SearchGoesOn(t, code, i);
        i := Next(i);
      }
    }

    /**
     The index for a colour. With fewer colours stored than there are buckets, the
     search ends, and it returns the nearest entry; the colour is stored after it.
     */
    method Lookup(c: Colour) returns (index: int)
      requires Valid() && ValidColour(c) && |Codes(buckets[..])| < BUCKETS
      modifies buckets
      ensures Valid() && IsNearest(pal, noData, c, index)
      ensures forall code :: Stored(buckets[..], code) <==> old(Stored(buckets[..], code)) || code == Code(c)
    {
      var code := Code(c);
      var home := code % BUCKETS;
      ghost var t := buckets[..];
      ghost var room := SomeRoom(t, pal, noData);
      var i := home;
      PosInRange(home, home);
      assert SearchedTo(t, code, i) by {
        forall x | 0 <= x < |t| ensures Pos(home, x) >= 0 { PosInRange(home, x); }
      }
      hide Code;
      hide Pos;
      hide ValidTable;
      hide SearchedTo;
      hide Stored;
      hide IsNearest;
      while true
        invariant Valid() && buckets[..] == t && 0 <= i < BUCKETS && SearchedTo(t, code, i)
        decreases BUCKETS - Pos(home, i)
      {
        var done;
        done, index := VisitBucket(i, c);
        if done {
          return;
        }
        PosInRange(home, i);
        i := SkipBuckets(i, code, room);
        PosInRange(home, i);
      }
    }
  }

  lemma CodeIsSet(c: Colour)
    requires ValidColour(c)
    ensures 0 <= Code(c) < 0x100_0000 && IsSet(Code(c))
  {
  }

  lemma SlotIsFree(b: Bucket, s: int, code: int)
    requires Tidy(b) && 0 <= s < 3 && !IsSet(SlotCode(b, s)) && IsSet(code)
    requires forall u :: 0 <= u < s ==> IsSet(SlotCode(b, u)) && SlotCode(b, u) != code
    ensures FirstFree(b, s) && Lacks(b, code) && !Full(b)
  {
    assert s >= 1 ==> IsSet(SlotCode(b, 0)) && SlotCode(b, 0) != code;
    assert s >= 2 ==> IsSet(SlotCode(b, 1)) && SlotCode(b, 1) != code;
  }

  /** What is stored with a colour is its nearest entry. */
  lemma FoundIsNearest(t: seq<Bucket>, pal: seq<Colour>, noData: int, i: int, s: int, c: Colour)
    requires ValidTable(t, pal, noData) && ValidColour(c) && Holds(t, i, s, Code(c))
    ensures IsNearest(pal, noData, c, SlotIndex(t[i], s)) && Stored(t, Code(c))
  {
    assert Placed(t, pal, noData, i, s);
    var d :| ValidColour(d) && Code(d) == Code(c) && IsNearest(pal, noData, d, SlotIndex(t[i], s));
    CodeTellsColours(c, d);
  }

  lemma OneMoreCode(t: seq<Bucket>, t': seq<Bucket>, c: Colour)
    requires ValidColour(c)
    requires forall code :: Stored(t', code) <==> Stored(t, code) || code == Code(c)
    ensures |Codes(t')| <= |Codes(t)| + 1
  {
    CodeIsSet(c);
    hide Stored;
    hide Code;
    assert Codes(t') == Codes(t) + {Code(c)};
  }

  /** A small image, pixel by pixel through a fresh table: every pixel gets its nearest entry. */
  method MapPixels(pal: seq<Colour>, noData: int, pixels: seq<Colour>) returns (indices: seq<int>)
    requires ValidPalette(pal) && |pixels| <= 65536
    requires forall k :: 0 <= k < |pixels| ==> ValidColour(pixels[k])
    ensures |indices| == |pixels|
    ensures forall k :: 0 <= k < |pixels| ==> IsNearest(pal, noData, pixels[k], indices[k])
  {
    var table := new ColourTable(pal, noData);
    indices := [];
    hide IsNearest;
    hide Stored;
    hide ValidTable;
    hide Codes;
    for k := 0 to |pixels|
      invariant table.Valid() && fresh(table) && fresh(table.buckets) && table.pal == pal && table.noData == noData
      invariant |Codes(table.buckets[..])| <= k
      invariant |indices| == k
      invariant forall j :: 0 <= j < k ==> IsNearest(pal, noData, pixels[j], indices[j])
    {
      ghost var t := table.buckets[..];
      var index := table.Lookup(pixels[k]);
      OneMoreCode(t, table.buckets[..], pixels[k]);
      indices := indices + [index];
    }
  }
}
