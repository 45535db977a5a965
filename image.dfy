/** Grey-level frames and the region/crop/flip/flatten operations the
    pipelines apply to them (numpy slicing, cv2.flip, ndarray.flatten). */
module Image {

  /** One element of a uint8 array. */
  type Byte = x: int | 0 <= x < 256

  /** A single-channel image, row-major: a sequence of pixel rows. */
  type Grid = seq<seq<Byte>>

  /** Side of a normalised face: cv2.resize(face, (128, 128)). */
  const Side: nat := 128

  /** Every row has exactly `w` pixels. */
  predicate Rectangular(g: Grid, w: nat)
  {
    forall i :: 0 <= i < |g| ==> |g[i]| == w
  }

  predicate IsFace(g: Grid)
  {
    |g| == Side && Rectangular(g, Side)
  }

  /** A normalised face: exactly 128 x 128 grey pixels. */
  type Face = g: Grid | IsFace(g) witness Uniform(0)

  /** A 128 x 128 grid whose every pixel is `c`. */
  function Uniform(c: Byte): Grid
  {
    seq(Side, _ => seq(Side, _ => c))
  }

  /** A detection (x, y, w, h) as returned by detectMultiScale. */
  datatype Region = Region(x: nat, y: nat, w: nat, h: nat)

  function Min(a: int, b: int): int { if a <= b then a else b }

  /** numpy's s[lo:hi] for non-negative bounds: both bounds are clamped to
      the length, and an empty range gives an empty result. */
  function Slice<T>(s: seq<T>, lo: nat, hi: nat): (r: seq<T>)
    ensures |r| == if lo < hi && lo < |s| then Min(hi, |s|) - lo else 0
    ensures forall k :: 0 <= k < |r| ==> r[k] == s[lo + k]
  {
    if lo >= |s| || hi <= lo then [] else s[lo..Min(hi, |s|)]
  }

  /** gray[y:y+h, x:x+w]: rows y .. y+h-1 and, within each, columns
      x .. x+w-1, clipped to the frame. */
  function Crop(gray: Grid, r: Region): (c: Grid)
    ensures |c| <= r.h && (|c| > 0 ==> r.y + |c| <= |gray|)
    ensures |c| == |Slice(gray, r.y, r.y + r.h)|
    ensures forall i :: 0 <= i < |c| ==> |c[i]| == |Slice(gray[r.y + i], r.x, r.x + r.w)|
    ensures r.y + r.h <= |gray| ==> |c| == r.h
    ensures forall i :: 0 <= i < |c| && r.x + r.w <= |gray[r.y + i]| ==> |c[i]| == r.w
    ensures forall i, j :: 0 <= i < |c| && 0 <= j < |c[i]| ==>
              r.x + j < |gray[r.y + i]| && c[i][j] == gray[r.y + i][r.x + j]
  {
    var rows := Slice(gray, r.y, r.y + r.h);
    seq(|rows|, i requires 0 <= i < |rows| => Slice(rows[i], r.x, r.x + r.w))
  }

  /** cv2.flip(frame, 1): every row reversed (mirror about the vertical axis). */
  function Mirror(g: Grid): (m: Grid)
    ensures |m| == |g|
    ensures forall i :: 0 <= i < |g| ==> |m[i]| == |g[i]|
    ensures forall i, j :: 0 <= i < |g| && 0 <= j < |g[i]| ==> m[i][j] == g[i][|g[i]| - 1 - j]
  {
    seq(|g|, i requires 0 <= i < |g| =>
      seq(|g[i]|, j requires 0 <= j < |g[i]| => g[i][|g[i]| - 1 - j]))
  }

  /** Flipping twice gives the original frame back. */
  lemma MirrorTwice(g: Grid)
    ensures Mirror(Mirror(g)) == g
  {
    var m := Mirror(Mirror(g));
    forall i | 0 <= i < |g| ensures m[i] == g[i] {
      assert |m[i]| == |g[i]|;
      forall j | 0 <= j < |g[i]| ensures m[i][j] == g[i][j] {
        assert Mirror(g)[i][|g[i]| - 1 - j] == g[i][j];
      }
    }
  }

  /** ndarray.flatten(): the rows concatenated in row-major order. */
  function Flatten(g: Grid): (v: seq<Byte>)
  {
    if g == [] then [] else g[0] + Flatten(g[1..])
  }

  lemma {:induction false} FlattenLength(g: Grid, w: nat)
    requires Rectangular(g, w)
    ensures |Flatten(g)| == |g| * w
  {
    if g != [] {
      FlattenLength(g[1..], w);
    }
  }

  /** A flattened face has 128 * 128 = 16384 pixels. */
  lemma FlattenFaceLength(f: Face)
    ensures |Flatten(f)| == Side * Side
  {
    FlattenLength(f, Side);
  }

  /** Flattening loses nothing between grids of the same shape. */
  lemma {:induction false} FlattenInjective(a: Grid, b: Grid, w: nat)
    requires |a| == |b| && Rectangular(a, w) && Rectangular(b, w)
    requires Flatten(a) == Flatten(b)
    ensures a == b
  {
    if a != [] {
      assert Flatten(a) == a[0] + Flatten(a[1..]);
      assert Flatten(b) == b[0] + Flatten(b[1..]);
      assert a[0] == Flatten(a)[..w] == b[0];
      assert Flatten(a[1..]) == Flatten(a)[w..] == Flatten(b[1..]);
      FlattenInjective(a[1..], b[1..], w);
      assert a == [a[0]] + a[1..];
      assert b == [b[0]] + b[1..];
    }
  }

  /** Flattening a grid of `n` rows of `w` copies of `c` gives `n * w` copies of `c`. */
  lemma {:induction false} FlattenConstant(g: Grid, w: nat, c: Byte)
    requires Rectangular(g, w)
    requires forall i, j :: 0 <= i < |g| && 0 <= j < |g[i]| ==> g[i][j] == c
    ensures |Flatten(g)| == |g| * w
    ensures forall k :: 0 <= k < |Flatten(g)| ==> Flatten(g)[k] == c
  {
    FlattenLength(g, w);
    if g != [] {
      FlattenConstant(g[1..], w, c);
      assert Flatten(g) == g[0] + Flatten(g[1..]);
    }
  }
}
