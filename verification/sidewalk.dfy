/** Where pedestrians walk in kill mode: the road grid of the city, the sidewalk points
    a pedestrian draws as its next target, and `isValidPosition`, the test a drawn point
    must pass. Random numbers are inputs: each attempt is the four draws of
    `Math.random()` the source makes, in the order it makes them. */
module Sidewalk {

  const BlockSpacing: real := 180.0
  const GridSize: nat := 6
  /** citySize / 2 for citySize = blockSpacing * gridSize. */
  const HalfCity: real := 540.0
  const CitySize: real := 1080.0
  /** roadWidth / 2 + 7 for roadWidth 32. */
  const SidewalkOffset: real := 23.0
  /** The band of `isValidPosition`: roadSize / 2 and roadSize / 2 + 8 for roadSize 15. */
  const BandLow: real := 7.5
  const BandHigh: real := 15.5
  const MaxAttempts: nat := 10

  datatype Point = Point(x: real, z: real)

  function Abs(v: real): real { if v < 0.0 then -v else v }

  /** JavaScript's `Math.round`: halves round up. */
  function Round(v: real): (r: int)
    ensures r as real - 0.5 <= v < r as real + 0.5
  {
    (v + 0.5).Floor
  }

  /** The centre line of road `i` (0 to gridSize) on either axis. */
  function RoadLine(i: int): real {
    -HalfCity + i as real * BlockSpacing
  }

  /** `Math.floor(Math.random() * roadPositions.length)`, with gridSize + 1 roads. */
  function RoadIndex(draw: real): (i: int)
    requires 0.0 <= draw < 1.0
    ensures 0 <= i <= GridSize
  {
    (draw * (GridSize + 1) as real).Floor
  }

  /** Distance from a coordinate to the road line whose index rounds nearest. */
  function NearestRoadDistance(v: real): real {
    Abs(v - RoadLine(Round((v + HalfCity) / BlockSpacing)))
  }

  predicate InBand(d: real) {
    BandLow < d < BandHigh
  }

  predicate InCity(p: Point) {
    Abs(p.x) <= HalfCity && Abs(p.z) <= HalfCity
  }

  /** `isValidPosition`: inside the city and, on one axis or the other, between 7.5 and
      15.5 from the nearest road line. */
  function IsValidPosition(p: Point): bool {
    InCity(p) && (InBand(NearestRoadDistance(p.x)) || InBand(NearestRoadDistance(p.z)))
  }

  /** The four draws of one attempt: the road, the axis, then two more whose meaning
      depends on the axis (for a vertical sidewalk the side, then the position along it;
      for a horizontal one the position along it, then the side). */
  datatype Attempt = Attempt(road: real, axis: real, first: real, second: real)

  predicate Draws(a: Attempt) {
    0.0 <= a.road < 1.0 && 0.0 <= a.axis < 1.0 && 0.0 <= a.first < 1.0 && 0.0 <= a.second < 1.0
  }

  predicate Vertical(a: Attempt) { a.axis < 0.5 }

  function Side(draw: real): real { if draw < 0.5 then -1.0 else 1.0 }

  /** The point one attempt draws: `sidewalkOffset` to one side of a road line, anywhere
      along it. */
  function CandidatePoint(a: Attempt): (p: Point)
    requires Draws(a)
  {
    var roadPos := RoadLine(RoadIndex(a.road));
    if Vertical(a) then Point(roadPos + Side(a.first) * SidewalkOffset, -HalfCity + a.second * CitySize)
    else Point(-HalfCity + a.first * CitySize, roadPos + Side(a.second) * SidewalkOffset)
  }

  /** The first attempt among the first `MaxAttempts` whose point is valid, if any. */
  function FirstValid(attempts: seq<Attempt>, k: nat): (r: int)
    requires forall i :: 0 <= i < |attempts| ==> Draws(attempts[i])
    requires k <= MaxAttempts <= |attempts|
    ensures k <= r <= MaxAttempts
    ensures r < MaxAttempts ==> IsValidPosition(CandidatePoint(attempts[r]))
    ensures forall i :: k <= i < r ==> !IsValidPosition(CandidatePoint(attempts[i]))
    decreases MaxAttempts - k
  {
    if k == MaxAttempts then MaxAttempts
    else if IsValidPosition(CandidatePoint(attempts[k])) then k
    else FirstValid(attempts, k + 1)
  }

  /** The target `selectNewTarget` settles on: the first valid drawn point, or the
      pedestrian's own position when ten attempts all fail. */
  function ChosenTarget(attempts: seq<Attempt>, here: Point): (t: Point)
    requires forall i :: 0 <= i < |attempts| ==> Draws(attempts[i])
    requires MaxAttempts <= |attempts|
  {
    var k := FirstValid(attempts, 0);
    if k < MaxAttempts then CandidatePoint(attempts[k]) else here
  }

  /** The chosen target is valid, or it is the pedestrian's own position and then every
      one of the ten attempts drew an invalid point. */
  lemma ChosenTargetValidOrStay(attempts: seq<Attempt>, here: Point)
    requires forall i :: 0 <= i < |attempts| ==> Draws(attempts[i])
    requires MaxAttempts <= |attempts|
    ensures var t := ChosenTarget(attempts, here);
      IsValidPosition(t)
      || (t == here && forall i :: 0 <= i < MaxAttempts ==> !IsValidPosition(CandidatePoint(attempts[i])))
  {
  }

  /** The rounded grid index is the nearest road line: no road line is closer, and the
      nearest one is at most half a block away. */
  lemma NearestRoadIsNearest(v: real, k: int)
    ensures NearestRoadDistance(v) <= Abs(v - RoadLine(k))
    ensures NearestRoadDistance(v) <= BlockSpacing / 2.0
  {
    var g := Round((v + HalfCity) / BlockSpacing);
    assert (g as real - 0.5) * BlockSpacing <= v + HalfCity < (g as real + 0.5) * BlockSpacing;
    assert RoadLine(k) - RoadLine(g) == (k - g) as real * BlockSpacing;
    if k < g {
      assert (k - g) as real <= -1.0;
    } else if k > g {
      assert (k - g) as real >= 1.0;
    }
  }

  /** A coordinate within the band of some road line is in the band of the nearest
      one: the band is narrower than half a block. */
  lemma {:induction false} BandOfAnyRoad(v: real, k: int)
    requires InBand(Abs(v - RoadLine(k)))
    ensures InBand(NearestRoadDistance(v))
  {
    var g := Round((v + HalfCity) / BlockSpacing);
    NearestRoadIsNearest(v, k);
    if g != k {
      assert false;
    }
  }

  /** `isValidPosition` in terms of the road grid alone: inside the city and in the
      band of some road line on one axis. */
  lemma {:induction false} ValidPositionIff(p: Point)
    ensures IsValidPosition(p) <==>
      InCity(p)
      && ((exists k :: InBand(Abs(p.x - RoadLine(k)))) || (exists k :: InBand(Abs(p.z - RoadLine(k)))))
  {
    var gx := Round((p.x + HalfCity) / BlockSpacing);
    var gz := Round((p.z + HalfCity) / BlockSpacing);
    if IsValidPosition(p) {
      if InBand(NearestRoadDistance(p.x)) {
        assert InBand(Abs(p.x - RoadLine(gx)));
      } else {
        assert InBand(Abs(p.z - RoadLine(gz)));
      }
    }
    if (exists k :: InBand(Abs(p.x - RoadLine(k)))) {
      var k :| InBand(Abs(p.x - RoadLine(k)));
      BandOfAnyRoad(p.x, k);
    }
    if (exists k :: InBand(Abs(p.z - RoadLine(k)))) {
      var k :| InBand(Abs(p.z - RoadLine(k)));
      BandOfAnyRoad(p.z, k);
    }
  }

  /** A coordinate `sidewalkOffset` from road line `i` is 23 from the nearest road line,
      outside the band. */
  lemma {:induction false} OffsetIsOutsideBand(i: int, side: real)
    requires side == 1.0 || side == -1.0
    ensures NearestRoadDistance(RoadLine(i) + side * SidewalkOffset) == SidewalkOffset
    ensures !InBand(NearestRoadDistance(RoadLine(i) + side * SidewalkOffset))
  {
    var v := RoadLine(i) + side * SidewalkOffset;
    assert (v + HalfCity) / BlockSpacing == i as real + side * SidewalkOffset / BlockSpacing;
    assert Round((v + HalfCity) / BlockSpacing) == i;
  }

  /** A drawn sidewalk point never passes on its own axis: `isValidPosition` holds for it
      exactly when it lies inside the city and the coordinate along the sidewalk happens
      to fall in the band of a crossing road. */
  lemma {:induction false} CandidateValidIff(a: Attempt)
    requires Draws(a)
    ensures var p := CandidatePoint(a);
      IsValidPosition(p) <==>
        InCity(p) && InBand(NearestRoadDistance(if Vertical(a) then p.z else p.x))
  {
    var i := RoadIndex(a.road);
    if Vertical(a) {
      OffsetIsOutsideBand(i, Side(a.first));
    } else {
      OffsetIsOutsideBand(i, Side(a.second));
    }
  }

  /** The two outermost sidewalks (the outer side of the first and of the last road
      line) lie outside the city, so no point on them is ever valid. */
  lemma OuterSidewalkOutsideCity(a: Attempt)
    requires Draws(a)
    requires var side := if Vertical(a) then a.first else a.second;
      (RoadIndex(a.road) == 0 && side < 0.5) || (RoadIndex(a.road) == GridSize && side >= 0.5)
    ensures !IsValidPosition(CandidatePoint(a))
  {
  }
}
