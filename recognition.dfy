/** The nearest-neighbour matcher of the recognition loops and the per-frame
    loop around it: every detected region is cropped, resized to a face and
    matched against the known faces by a linear scan that keeps the first
    strict minimum; there is no threshold. */
module Recognition {
  import opened Image
  import opened Distance

  /** The name given when nothing is known. */
  const Unknown: string := "Desconocido"

  /** What the status label shows: "Esperando reconocimiento..." before any
      face is matched, then "Usuario reconocido: " and the name of the last
      face matched. */
  datatype Status = Waiting | Recognized(name: string)

  /** How far a query face is from a known face (smaller is closer). */
  type Metric = (Face, Face) -> nat

  /** The distance from the query to each known face, in the known order. */
  function Distances(query: Face, known: seq<Face>, dist: Metric): seq<nat>
  {
    seq(|known|, i requires 0 <= i < |known| => dist(query, known[i]))
  }

  /** `i` is where a left-to-right scan with a strict `<` settles: no entry is
      smaller than entry `i`, and every entry before it is larger. */
  predicate IsFirstNearest(ds: seq<nat>, i: nat)
  {
    i < |ds| &&
    (forall j :: 0 <= j < |ds| ==> ds[i] <= ds[j]) &&
    (forall j :: 0 <= j < i ==> ds[i] < ds[j])
  }

  /** At most one index is the first minimum. */
  lemma FirstNearestUnique(ds: seq<nat>, i: nat, k: nat)
    requires IsFirstNearest(ds, i) && IsFirstNearest(ds, k)
    ensures i == k
  {
    assert ds[i] == ds[k];
  }

  /** The index the scan ends on, defined as the scan itself: the candidate so
      far is replaced only by a strictly smaller distance. */
  function FirstMin(ds: seq<nat>): (i: nat)
    requires |ds| > 0
    ensures IsFirstNearest(ds, i)
  {
    if |ds| == 1 then 0
    else
      var k := FirstMin(ds[..|ds| - 1]);
      if ds[|ds| - 1] < ds[k] then |ds| - 1 else k
  }

  /** The name a query face is recognised as. */
  function Nearest(query: Face, knownFaces: seq<Face>, knownNames: seq<string>, dist: Metric): (name: string)
    requires |knownFaces| == |knownNames|
    ensures |knownFaces| == 0 ==> name == Unknown
  {
    if |knownFaces| == 0 then Unknown
    else knownNames[FirstMin(Distances(query, knownFaces, dist))]
  }

  /** When something is known, the name is the one at a first nearest index. */
  lemma NearestIsFirstNearest(query: Face, knownFaces: seq<Face>, knownNames: seq<string>, dist: Metric)
    requires |knownFaces| == |knownNames| && |knownFaces| > 0
    ensures exists i: nat :: IsFirstNearest(Distances(query, knownFaces, dist), i) &&
                             Nearest(query, knownFaces, knownNames, dist) == knownNames[i]
  {
    var i := FirstMin(Distances(query, knownFaces, dist));
    assert IsFirstNearest(Distances(query, knownFaces, dist), i);
  }

  /** Conversely, whichever index is the first nearest one names the query. */
  lemma NearestAt(query: Face, knownFaces: seq<Face>, knownNames: seq<string>, dist: Metric, i: nat)
    requires |knownFaces| == |knownNames|
    requires IsFirstNearest(Distances(query, knownFaces, dist), i)
    ensures Nearest(query, knownFaces, knownNames, dist) == knownNames[i]
  {
    FirstNearestUnique(Distances(query, knownFaces, dist), i, FirstMin(Distances(query, knownFaces, dist)));
  }

  /** A query identical to a known face is at distance 0 from it, so the
      first known face equal to the query gives the name. */
  lemma ExactDuplicateWins(query: Face, knownFaces: seq<Face>, knownNames: seq<string>, k: nat)
    requires |knownFaces| == |knownNames|
    requires k < |knownFaces| && knownFaces[k] == query
    requires forall j :: 0 <= j < k ==> knownFaces[j] != query
    ensures Nearest(query, knownFaces, knownNames, Uint8Distance) == knownNames[k]
  {
    var ds := Distances(query, knownFaces, Uint8Distance);
    Uint8DistanceZero(query, knownFaces[k]);
    forall j | 0 <= j < k ensures ds[k] < ds[j] {
      Uint8DistanceZero(query, knownFaces[j]);
    }
    NearestAt(query, knownFaces, knownNames, Uint8Distance, k);
  }

  /** The matching loop of the recognition refresh: start from "Desconocido"
      at infinite distance and take a known face's name whenever its
      distance is strictly below the best so far. */
  method Recognise(query: Face, knownFaces: seq<Face>, knownNames: seq<string>, dist: Metric)
    returns (recognizedName: string)
    requires |knownFaces| == |knownNames|
    ensures recognizedName == Nearest(query, knownFaces, knownNames, dist)
    ensures |knownFaces| == 0 ==> recognizedName == Unknown
    ensures |knownFaces| > 0 ==> recognizedName in knownNames
    ensures |knownFaces| > 0 && Unknown !in knownNames ==> recognizedName != Unknown
  {
    var minDist: nat := 0;
    var found := false;  // minDist is still float('inf')
    var best: nat := 0;
    recognizedName := Unknown;
    ghost var ds := Distances(query, knownFaces, dist);
    var i := 0;
    while i < |knownFaces|
      invariant 0 <= i <= |knownFaces|
      invariant found <==> i > 0
      invariant !found ==> recognizedName == Unknown
      invariant found ==> best == FirstMin(ds[..i])
      invariant found ==> best < i && minDist == ds[best] && recognizedName == knownNames[best]
    {
      var d := dist(query, knownFaces[i]);
      assert ds[..i + 1][..i] == ds[..i];
      if !found || d < minDist {
        minDist := d;
        best := i;
        recognizedName := knownNames[i];
      }
      found := true;
      i := i + 1;
    }
    assert ds[..i] == ds;
    if i > 0 {
      NearestIsFirstNearest(query, knownFaces, knownNames, dist);
    }
  }

  /** The name a detected region is recognised as: its crop, resized, matched. */
  function RegionName(gray: Grid, region: Region, resize: Grid -> Face,
                      knownFaces: seq<Face>, knownNames: seq<string>, dist: Metric): string
    requires |knownFaces| == |knownNames|
  {
    Nearest(resize(Crop(gray, region)), knownFaces, knownNames, dist)
  }

  /** One iteration of the region loop: crop, resize and match one region. */
  method MatchRegion(gray: Grid, region: Region, resize: Grid -> Face,
                     knownFaces: seq<Face>, knownNames: seq<string>, dist: Metric)
    returns (recognizedName: string)
    requires |knownFaces| == |knownNames|
    ensures recognizedName == RegionName(gray, region, resize, knownFaces, knownNames, dist)
  {
    var face := resize(Crop(gray, region));
    recognizedName := Recognise(face, knownFaces, knownNames, dist);
  }

  /** The names a frame's regions are recognised as, in detection order. */
  function FrameNames(gray: Grid, regions: seq<Region>, resize: Grid -> Face,
                      knownFaces: seq<Face>, knownNames: seq<string>, dist: Metric): (names: seq<string>)
    requires |knownFaces| == |knownNames|
    ensures |names| == |regions|
    ensures forall r :: 0 <= r < |regions| ==>
              names[r] == RegionName(gray, regions[r], resize, knownFaces, knownNames, dist)
  {
    if regions == [] then []
    else
      FrameNames(gray, regions[..|regions| - 1], resize, knownFaces, knownNames, dist)
        + [RegionName(gray, regions[|regions| - 1], resize, knownFaces, knownNames, dist)]
  }

  /** The loop over the detected regions of one frame: crop, resize, match,
      and overwrite the status label. */
  method ProcessFrame(gray: Grid, regions: seq<Region>, resize: Grid -> Face,
                      knownFaces: seq<Face>, knownNames: seq<string>, dist: Metric, status: Status)
    returns (names: seq<string>, newStatus: Status)
    requires |knownFaces| == |knownNames|
    ensures names == FrameNames(gray, regions, resize, knownFaces, knownNames, dist)
    ensures |regions| == 0 ==> newStatus == status
    ensures |regions| > 0 ==> newStatus == Recognized(names[|regions| - 1])
  {
    names := [];
    newStatus := status;
    var r := 0;
    while r < |regions|
      invariant 0 <= r <= |regions|
      invariant names == FrameNames(gray, regions[..r], resize, knownFaces, knownNames, dist)
      invariant r == 0 ==> newStatus == status
      invariant r > 0 ==> newStatus == Recognized(names[r - 1])
    {
      var recognizedName := MatchRegion(gray, regions[r], resize, knownFaces, knownNames, dist);
      assert regions[..r + 1][..r] == regions[..r];
      names := names + [recognizedName];
      newStatus := Recognized(recognizedName);
      r := r + 1;
    }
    assert regions[..r] == regions;
  }

  /** With nothing known, every detected face is named "Desconocido". */
  lemma NothingKnownAllUnknown(gray: Grid, regions: seq<Region>, resize: Grid -> Face,
                               dist: Metric, names: seq<string>)
    requires |names| == |regions|
    requires forall r :: 0 <= r < |regions| ==> names[r] == RegionName(gray, regions[r], resize, [], [], dist)
    ensures forall r :: 0 <= r < |names| ==> names[r] == Unknown
  {
  }

  /** With two known faces the query is named after the second only when it
      is strictly closer to it. */
  lemma TwoFaceNearest(query: Face, first: Face, second: Face, n0: string, n1: string, dist: Metric)
    ensures Nearest(query, [first, second], [n0, n1], dist) ==
              if dist(query, second) < dist(query, first) then n1 else n0
  {
    var ds := Distances(query, [first, second], dist);
    assert ds == [dist(query, first), dist(query, second)];
    if dist(query, second) < dist(query, first) {
      NearestAt(query, [first, second], [n0, n1], dist, 1);
    } else {
      NearestAt(query, [first, second], [n0, n1], dist, 0);
    }
  }

  // Uniform grey faces used below: Alice enrolled as an all-black face,
  // Bob as an all-white face.

  /** As written, the uint8 wrap-around makes the matcher pick the farther
      face: a query at grey 254, one level from Bob's 255, is 254 levels from
      Alice but (254 - 255) mod 256 = 255 levels from Bob, so it is named
      Alice. */
  lemma WrapAroundPicksFartherFace(query: Face, alice: Face, bob: Face)
    requires alice == Uniform(0) && bob == Uniform(255) && query == Uniform(254)
    ensures Nearest(query, [alice, bob], ["Alice", "Bob"], Uint8Distance) == "Alice"
  {
    Uint8DistanceUniform(254, 0);
    Uint8DistanceUniform(254, 255);
    assert Uint8Distance(query, alice) == Side * Side * (254 * 254);
    assert Uint8Distance(query, bob) == Side * Side * (255 * 255);
    TwoFaceNearest(query, alice, bob, "Alice", "Bob", Uint8Distance);
  }

  function Abs(x: int): nat { if x < 0 then -x else x }

  /** Between uniform faces, the scaled squared gap orders like the gap. */
  lemma UniformGapLess(x: int, y: int)
    ensures Side * Side * (y * y) < Side * Side * (x * x) <==> Abs(y) < Abs(x)
  {
    assert x * x == Abs(x) * Abs(x) && y * y == Abs(y) * Abs(y);
    if Abs(y) < Abs(x) {
      SquareLess(Abs(y), Abs(x));
      MulStrict(y * y, x * x, Side * Side);
    } else if Abs(x) < Abs(y) {
      SquareLess(Abs(x), Abs(y));
      MulStrict(x * x, y * y, Side * Side);
    }
  }

  /** With signed differences the matcher names the query after the face
      whose grey level is nearer, and after the first one (Alice) on a tie. */
  lemma SignedDistancePicksNearerFace(q: Byte, a: Byte, b: Byte, query: Face, alice: Face, bob: Face)
    requires alice == Uniform(a) && bob == Uniform(b) && query == Uniform(q)
    ensures Nearest(query, [alice, bob], ["Alice", "Bob"], SignedDistance) ==
              if Abs(q - b) < Abs(q - a) then "Bob" else "Alice"
  {
    SignedDistanceUniform(q, a);
    SignedDistanceUniform(q, b);
    UniformGapLess(q - a, q - b);
    TwoFaceNearest(query, alice, bob, "Alice", "Bob", SignedDistance);
  }
}
