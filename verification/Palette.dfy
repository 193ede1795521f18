/** The nearest colour of a colour table, by the plain search and by the one that takes eight entries at a time. */
module Palette {

  datatype Colour = Colour(red: int, green: int, blue: int)

  predicate ValidColour(c: Colour) {
    0 <= c.red < 256 && 0 <= c.green < 256 && 0 <= c.blue < 256
  }

  ghost predicate ValidPalette(pal: seq<Colour>) {
    1 <= |pal| <= 256 && forall i :: 0 <= i < |pal| ==> ValidColour(pal[i])
  }

  function Apart(a: int, b: int): int {
    if a < b then b - a else a - b
  }

  function Distance(a: Colour, b: Colour): int {
    Apart(a.red, b.red) + Apart(a.green, b.green) + Apart(a.blue, b.blue)
  }

  /** The distance tells colours apart and does not depend on their order. */
  lemma DistanceTellsApart(a: Colour, b: Colour)
    ensures Distance(a, b) >= 0 && (Distance(a, b) == 0 <==> a == b)
    ensures Distance(a, b) == Distance(b, a)
  {
  }

  /** One step of one channel towards the other colour brings it nearer by one: the distance counts such steps. */
  lemma DistanceCountsSteps(a: Colour, b: Colour)
    ensures Distance(a.(red := a.red + 1), b) == Distance(a, b) + (if a.red < b.red then -1 else 1)
    ensures Distance(a.(green := a.green + 1), b) == Distance(a, b) + (if a.green < b.green then -1 else 1)
    ensures Distance(a.(blue := a.blue + 1), b) == Distance(a, b) + (if a.blue < b.blue then -1 else 1)
  {
  }

  predicate Usable(pal: seq<Colour>, noData: int, i: int) {
    0 <= i < |pal| && i != noData
  }

  ghost predicate SomeUsable(pal: seq<Colour>, noData: int) {
    exists i :: Usable(pal, noData, i)
  }

  /** `best` comes before entry `j`: it is nearer, or as near and not behind it. */
  predicate Beats(pal: seq<Colour>, c: Colour, best: int, j: int) {
    && 0 <= best < |pal| && 0 <= j < |pal|
    && Distance(c, pal[best]) <= Distance(c, pal[j])
    && (Distance(c, pal[best]) == Distance(c, pal[j]) ==> best <= j)
  }

  /** `best` is the first nearest entry that does not stand for missing data, or 0 if there is none. */
  ghost predicate IsNearest(pal: seq<Colour>, noData: int, c: Colour, best: int) {
    if SomeUsable(pal, noData) then Usable(pal, noData, best) && forall j :: Usable(pal, noData, j) ==> Beats(pal, c, best, j)
    else best == 0
  }

  lemma NearestIsUnique(pal: seq<Colour>, noData: int, c: Colour, a: int, b: int)
    requires IsNearest(pal, noData, c, a) && IsNearest(pal, noData, c, b)
    ensures a == b
  {
    if SomeUsable(pal, noData) {
      assert Beats(pal, c, a, b) && Beats(pal, c, b, a);
    }
  }

  /** The state of a search after `n` entries. */
  ghost predicate Searched(pal: seq<Colour>, noData: int, c: Colour, n: int, best: int, bestDist: int) {
    && 0 <= n <= |pal|
    && if exists i :: Usable(pal, noData, i) && i < n
       then Usable(pal, noData, best) && best < n && bestDist == Distance(c, pal[best]) &&
            forall j :: Usable(pal, noData, j) && j < n ==> Beats(pal, c, best, j)
       else best == 0 && bestDist == 768
  }

  /** One more entry: it replaces the best one only if it is strictly nearer. */
  lemma SearchStep(pal: seq<Colour>, noData: int, c: Colour, n: int, best: int, bestDist: int)
    requires ValidPalette(pal) && ValidColour(c) && n < |pal| && Searched(pal, noData, c, n, best, bestDist)
    ensures var d := Distance(c, pal[n]);
      if n != noData && d < bestDist then Searched(pal, noData, c, n + 1, n, d) else Searched(pal, noData, c, n + 1, best, bestDist)
  {
    assert Distance(c, pal[n]) < 768;
    hide Distance;
    if n != noData {
      assert Usable(pal, noData, n);
    }
  }

  lemma SearchEnds(pal: seq<Colour>, noData: int, c: Colour, best: int, bestDist: int)
    requires Searched(pal, noData, c, |pal|, best, bestDist)
    ensures IsNearest(pal, noData, c, best)
  {
    if SomeUsable(pal, noData) {
      var i :| Usable(pal, noData, i);
      assert i < |pal|;
    }
  }

  method FindNearestColour(pal: seq<Colour>, c: Colour, noData: int) returns (best: int)
    requires ValidPalette(pal) && ValidColour(c)
    ensures IsNearest(pal, noData, c, best)
  {
    var bestDist := 768;
    best := 0;
    for i := 0 to |pal|
      invariant Searched(pal, noData, c, i, best, bestDist)
    {
      SearchStep(pal, noData, c, i, best, bestDist);
      if i != noData {
        var d := Distance(c, pal[i]);
        if d < bestDist {
          best, bestDist := i, d;
        }
      }
    }
    SearchEnds(pal, noData, c, best, bestDist);
  }

  // ------------------------------------------------------------ eight at a time

  /** The colour table filled up to a multiple of eight. */
  function Padded(pal: seq<Colour>, noData: int): seq<Colour>
    requires 1 <= |pal|
  {
    var missing := if |pal| % 8 == 0 then 0 else 8 - |pal| % 8;
    pal + seq(missing, _ => if noData > 0 then pal[0] else pal[|pal| - 1])
  }

  lemma PaddedShape(pal: seq<Colour>, noData: int)
    requires ValidPalette(pal)
    ensures ValidPalette(Padded(pal, noData)) && |Padded(pal, noData)| % 8 == 0
    ensures |pal| <= |Padded(pal, noData)| < |pal| + 8
  {
  }

  /** The copies at the end repeat an entry that may be chosen, so they never win. */
  lemma CopiesNeverWin(pal: seq<Colour>, noData: int, c: Colour, best: int)
    requires ValidPalette(pal) && SomeUsable(pal, noData) && IsNearest(Padded(pal, noData), noData, c, best)
    ensures IsNearest(pal, noData, c, best)
  {
    var padded := Padded(pal, noData);
    var copied := if noData > 0 then 0 else |pal| - 1;
    var i :| Usable(pal, noData, i);
    assert Usable(pal, noData, copied);
    assert Usable(padded, noData, copied);
    assert Beats(padded, c, best, copied);
    forall j | Usable(pal, noData, j)
      ensures Beats(pal, c, best, j)
    {
      assert Usable(padded, noData, j);
    }
  }

  /** If the only entry stands for missing data, its first copy is chosen instead of it. */
  lemma OnlyEntryWithoutData(pal: seq<Colour>, noData: int, c: Colour, best: int)
    requires |pal| == 1 && noData == 0 && IsNearest(Padded(pal, noData), noData, c, best)
    ensures best == 1 && !IsNearest(pal, noData, c, best)
  {
    var padded := Padded(pal, noData);
    assert Usable(padded, noData, 1);
    assert Beats(padded, c, best, 1);
  }

  /**
   The search by eights takes its distances eight at a time and looks at them in
   order. It agrees with the plain search exactly if the table is not a single
   entry that stands for missing data.
   */
  method FindNearestColourWide(pal: seq<Colour>, c: Colour, noData: int) returns (best: int)
    requires ValidPalette(pal) && ValidColour(c)
    ensures IsNearest(pal, noData, c, best) <==> !(|pal| == 1 && noData == 0)
    ensures |pal| == 1 && noData == 0 ==> best == 1
  {
    PaddedShape(pal, noData);
    var padded := Padded(pal, noData);
    var bestDist := 768;
    best := 0;
    var i := 0;
    assert Searched(padded, noData, c, i, best, bestDist);
    hide Padded;
    hide Searched;
    hide IsNearest;
    while i < |pal|
      invariant 0 <= i <= |padded| && i % 8 == 0
      invariant Searched(padded, noData, c, i, best, bestDist)
    {
      best, bestDist := SearchEight(padded, c, noData, i, best, bestDist);
      i := i + 8;
    }
    assert i == |padded|;
    WideSearchEnds(pal, noData, c, best, bestDist);
  }

  lemma WideSearchEnds(pal: seq<Colour>, noData: int, c: Colour, best: int, bestDist: int)
    requires ValidPalette(pal) && Searched(Padded(pal, noData), noData, c, |Padded(pal, noData)|, best, bestDist)
    ensures IsNearest(pal, noData, c, best) <==> !(|pal| == 1 && noData == 0)
    ensures |pal| == 1 && noData == 0 ==> best == 1
  {
    hide Searched;
    hide Padded;
    hide IsNearest;
    SearchEnds(Padded(pal, noData), noData, c, best, bestDist);
    if |pal| == 1 && noData == 0 {
      OnlyEntryWithoutData(pal, noData, c, best);
    } else {
      assert Usable(pal, noData, if noData == 0 then 1 else 0);
      CopiesNeverWin(pal, noData, c, best);
    }
  }

  method SearchEight(padded: seq<Colour>, c: Colour, noData: int, i: int, best0: int, bestDist0: int) returns (best: int, bestDist: int)
    requires ValidPalette(padded) && ValidColour(c) && 0 <= i && i + 8 <= |padded|
    requires Searched(padded, noData, c, i, best0, bestDist0)
    ensures Searched(padded, noData, c, i + 8, best, bestDist)
  {
    hide Searched;
    best, bestDist := best0, bestDist0;
    var distances := seq(8, k requires 0 <= k < 8 => Distance(c, padded[i + k]));
    for k := 0 to 8
      invariant Searched(padded, noData, c, i + k, best, bestDist)
    {
      SearchStep(padded, noData, c, i + k, best, bestDist);
      if distances[k] < bestDist && i + k != noData {
        best, bestDist := i + k, distances[k];
      }
    }
  }
}
