/** The distance the matcher ranks known faces by: the Euclidean norm of the
    difference of two flattened faces, squared (sqrt is monotone, so ranking
    by the square picks the same face). The difference is taken on uint8
    arrays, so every pixel difference wraps modulo 256; the signed distance
    beside it is what a Euclidean distance between the two images means. */
module Distance {
  import opened Image

  /** numpy's a - b on two uint8 arrays of one shape: each difference wraps
      into 0 .. 255, so adding b back modulo 256 recovers a. */
  function Uint8Sub(a: seq<Byte>, b: seq<Byte>): (d: seq<Byte>)
    requires |a| == |b|
    ensures |d| == |a|
    ensures forall k :: 0 <= k < |d| ==> (b[k] as int + d[k]) % 256 == a[k]
  {
    seq(|a|, k requires 0 <= k < |a| => (a[k] as int - b[k]) % 256)
  }

  /** a - b on signed integers: adding b back recovers a exactly. */
  function SignedSub(a: seq<Byte>, b: seq<Byte>): (d: seq<int>)
    requires |a| == |b|
    ensures |d| == |a|
    ensures forall k :: 0 <= k < |d| ==> b[k] + d[k] == a[k]
  {
    seq(|a|, k requires 0 <= k < |a| => a[k] as int - b[k])
  }

  /** Squared Euclidean norm of a vector. */
  function SqNorm(v: seq<int>): nat
  {
    if v == [] then 0 else v[0] * v[0] + SqNorm(v[1..])
  }

  /** The norm vanishes exactly on the zero vector. */
  lemma {:induction false} SqNormZero(v: seq<int>)
    ensures SqNorm(v) == 0 <==> forall k :: 0 <= k < |v| ==> v[k] == 0
  {
    if v != [] {
      SqNormZero(v[1..]);
      assert forall k :: 1 <= k < |v| ==> v[k] == v[1..][k - 1];
    }
  }

  /** Negating every component leaves the norm unchanged. */
  lemma {:induction false} SqNormNegate(v: seq<int>, w: seq<int>)
    requires |v| == |w| && forall k :: 0 <= k < |v| ==> w[k] == -v[k]
    ensures SqNorm(v) == SqNorm(w)
  {
    if v != [] {
      SqNormNegate(v[1..], w[1..]);
    }
  }

  /** A vector of `|v|` copies of `x` has squared norm |v| * x^2. */
  lemma {:induction false} SqNormConstant(v: seq<int>, x: int)
    requires forall k :: 0 <= k < |v| ==> v[k] == x
    ensures SqNorm(v) == |v| * (x * x)
  {
    if v != [] {
      SqNormConstant(v[1..], x);
      assert SqNorm(v) == x * x + (|v| - 1) * (x * x);
    }
  }

  /** np.linalg.norm(query.flatten() - known.flatten()) squared, with the
      subtraction done on uint8 as in the recognition loops. */
  function Uint8Distance(query: Face, known: Face): nat
  {
    FlattenFaceLength(query);
    FlattenFaceLength(known);
    SqNorm(Uint8Sub(Flatten(query), Flatten(known)))
  }

  /** The same norm with the subtraction done on signed integers. */
  function SignedDistance(query: Face, known: Face): nat
  {
    FlattenFaceLength(query);
    FlattenFaceLength(known);
    SqNorm(SignedSub(Flatten(query), Flatten(known)))
  }

  /** Despite the wrap-around, the uint8 distance is zero exactly when the
      two faces are identical. */
  lemma Uint8DistanceZero(query: Face, known: Face)
    ensures Uint8Distance(query, known) == 0 <==> query == known
  {
    FlattenFaceLength(query);
    FlattenFaceLength(known);
    var a, b := Flatten(query), Flatten(known);
    var d := Uint8Sub(a, b);
    SqNormZero(d);
    if Uint8Distance(query, known) == 0 {
      assert forall k :: 0 <= k < |a| ==> a[k] == (b[k] as int + d[k]) % 256 == b[k];
      assert a == b;
      FlattenInjective(query, known, Side);
    }
  }

  /** The signed distance is zero exactly when the two faces are identical. */
  lemma SignedDistanceZero(query: Face, known: Face)
    ensures SignedDistance(query, known) == 0 <==> query == known
  {
    FlattenFaceLength(query);
    FlattenFaceLength(known);
    var a, b := Flatten(query), Flatten(known);
    SqNormZero(SignedSub(a, b));
    if SignedDistance(query, known) == 0 {
      assert a == b;
      FlattenInjective(query, known, Side);
    }
  }

  /** The signed distance does not depend on which face is the query. */
  lemma SignedDistanceSymmetric(p: Face, q: Face)
    ensures SignedDistance(p, q) == SignedDistance(q, p)
  {
    FlattenFaceLength(p);
    FlattenFaceLength(q);
    SqNormNegate(SignedSub(Flatten(p), Flatten(q)), SignedSub(Flatten(q), Flatten(p)));
  }

  /** Between two uniform faces the uint8 distance is 16384 copies of the
      wrapped difference, squared. */
  lemma Uint8DistanceUniform(c: Byte, e: Byte)
    ensures Uint8Distance(Uniform(c), Uniform(e)) == Side * Side * (((c - e) % 256) * ((c - e) % 256))
  {
    FlattenConstant(Uniform(c), Side, c);
    FlattenConstant(Uniform(e), Side, e);
    var d := Uint8Sub(Flatten(Uniform(c)), Flatten(Uniform(e)));
    assert forall k :: 0 <= k < |d| ==> d[k] == (c - e) % 256;
    SqNormConstant(d, (c - e) % 256);
  }

  /** Between two uniform faces the signed distance is 16384 copies of the
      difference, squared. */
  lemma SignedDistanceUniform(c: Byte, e: Byte)
    ensures SignedDistance(Uniform(c), Uniform(e)) == Side * Side * ((c - e) * (c - e))
  {
    FlattenConstant(Uniform(c), Side, c);
    FlattenConstant(Uniform(e), Side, e);
    var d := SignedSub(Flatten(Uniform(c)), Flatten(Uniform(e)));
    SqNormConstant(d, c - e);
  }

  /** Multiplying by a positive factor keeps a strict order. */
  lemma MulStrict(a: int, b: int, c: int)
    requires a < b && 0 < c
    ensures a * c < b * c
  {
  }

  /** Squaring keeps the strict order of non-negative numbers. */
  lemma SquareLess(u: nat, v: nat)
    requires u < v
    ensures u * u < v * v
  {
    if u > 0 {
      MulStrict(u, v, u);
    }
    MulStrict(u, v, v);
  }

  /** The wrapped differences c - e and e - c square to different values
      unless they are equal, that is unless c - e is 0 or 128. */
  lemma WrappedSquaresDiffer(c: Byte, e: Byte)
    requires c != e && c - e != 128 && e - c != 128
    ensures Side * Side * (((c - e) % 256) * ((c - e) % 256)) !=
            Side * Side * (((e - c) % 256) * ((e - c) % 256))
  {
    var x: nat, y: nat := (c - e) % 256, (e - c) % 256;
    if c > e {
      assert x == c - e && y == 256 - (c - e);
    } else {
      assert y == e - c && x == 256 - (e - c);
    }
    if x < y {
      SquareLess(x, y);
      MulStrict(x * x, y * y, Side * Side);
    } else {
      SquareLess(y, x);
      MulStrict(y * y, x * x, Side * Side);
    }
  }

  /** As written, the distance is not symmetric: between two uniform faces
      whose grey levels differ by anything but 0 or 128, the face below is
      farther from the face above than the other way round (one level below
      is 255 levels away, one level above is 1 level away). */
  lemma Uint8DistanceAsymmetric(c: Byte, e: Byte)
    requires c != e && c - e != 128 && e - c != 128
    ensures Uint8Distance(Uniform(c), Uniform(e)) != Uint8Distance(Uniform(e), Uniform(c))
  {
    Uint8DistanceUniform(c, e);
    Uint8DistanceUniform(e, c);
    WrappedSquaresDiffer(c, e);
  }
}
