/**
 * The pixel evidence measured for one bubble: how many foreground pixels of the
 * thresholded sheet lie inside a filled disc. The disc stands in for the mask that
 * cv2.circle draws with thickness -1; the count stands in for
 * cv2.countNonZero(cv2.bitwise_and(thresh, thresh, mask=mask)).
 */
module Ink {

  /** An 8-bit pixel value, as in a uint8 image. */
  newtype byte = b: int | 0 <= b < 256

  /** A single-channel image as a sequence of rows: pixel (x, y) is img[y][x]. */
  type BinaryImage = seq<seq<byte>>

  /** Pixel (x, y) belongs to the filled disc of radius r centred at (cx, cy). */
  predicate InBubble(cx: int, cy: int, r: nat, x: int, y: int)
  {
    (x - cx) * (x - cx) + (y - cy) * (y - cy) <= r * r
  }

  /** Foreground pixels of one row (row index y) inside the disc; the row is scanned up to its length. */
  function RowInk(row: seq<byte>, y: int, cx: int, cy: int, r: nat): nat
  {
    if |row| == 0 then 0
    else
      var x := |row| - 1;
      RowInk(row[..x], y, cx, cy, r) + (if row[x] != 0 && InBubble(cx, cy, r, x, y) then 1 else 0)
  }

  /** Foreground pixels of the whole image inside the disc; pixels outside the image never count. */
  function InkCount(img: BinaryImage, cx: int, cy: int, r: nat): nat
  {
    if |img| == 0 then 0
    else
      var y := |img| - 1;
      InkCount(img[..y], cx, cy, r) + RowInk(img[y], y, cx, cy, r)
  }

  /** Every pixel of the image is background. */
  predicate Blank(img: BinaryImage)
  {
    forall y, x :: 0 <= y < |img| && 0 <= x < |img[y]| ==> img[y][x] == 0
  }

  lemma {:induction false} BlankRowHasNoInk(row: seq<byte>, y: int, cx: int, cy: int, r: nat)
    requires forall x :: 0 <= x < |row| ==> row[x] == 0
    ensures RowInk(row, y, cx, cy, r) == 0
  {
    if |row| > 0 {
      BlankRowHasNoInk(row[..|row| - 1], y, cx, cy, r);
    }
  }

  /** A blank thresholded image shows no ink in any bubble. */
  lemma {:induction false} BlankImageHasNoInk(img: BinaryImage, cx: int, cy: int, r: nat)
    requires Blank(img)
    ensures InkCount(img, cx, cy, r) == 0
  {
    if |img| > 0 {
      var y := |img| - 1;
      assert Blank(img[..y]) by {
        forall yy, x | 0 <= yy < y && 0 <= x < |img[..y][yy]| ensures img[..y][yy][x] == 0 {
          assert img[..y][yy] == img[yy];
        }
      }
      BlankImageHasNoInk(img[..y], cx, cy, r);
      BlankRowHasNoInk(img[y], y, cx, cy, r);
    }
  }

  // ---------------------------------------------------------------------------
  // Every disc of radius r fits in a (2r+1) x (2r+1) box, so no bubble can hold
  // more than (2r+1)^2 foreground pixels, whatever the image.
  // ---------------------------------------------------------------------------

  lemma SquareBound(d: int, r: int)
    requires 0 <= r && d * d <= r * r
    ensures -r <= d <= r
  {
    if d > r {
      MulMono(d, r + 1, d);
      MulMono(r + 1, r + 1, d);
      MulMono(r, r, r + 1);
    } else if d < -r {
      var e := -d;
      assert d * d == e * e;
      MulMono(e, r + 1, e);
      MulMono(r + 1, r + 1, e);
      MulMono(r, r, r + 1);
    }
  }

  lemma MulMono(k: int, w: int, v: int)
    requires 0 <= k && w <= v
    ensures k * w <= k * v
  {
    assert k * v - k * w == k * (v - w);
  }

  lemma MulStep(k: int, w: int)
    ensures k * (w + 1) == k * w + k
  {
  }

  /** A pixel in the disc lies within r of the centre along each axis. */
  lemma InBubbleBox(cx: int, cy: int, r: nat, x: int, y: int)
    requires InBubble(cx, cy, r, x, y)
    ensures cx - r <= x <= cx + r && cy - r <= y <= cy + r
  {
    var dx, dy := x - cx, y - cy;
    assert dx * dx >= 0 && dy * dy >= 0;
    SquareBound(dx, r);
    SquareBound(dy, r);
  }

  /** How many of the coordinates 0 .. n-1 lie within r of c. */
  function Window(n: nat, c: int, r: nat): nat
  {
    if n == 0 then 0
    else Window(n - 1, c, r) + (if c - r <= n - 1 <= c + r then 1 else 0)
  }

  lemma {:induction false} WindowBound(n: nat, c: int, r: nat)
    ensures Window(n, c, r) == if n <= c - r then 0 else if n <= c + r + 1 then n - (if c - r < 0 then 0 else c - r) else (if c + r + 1 < 0 then 0 else c + r + 1) - (if c - r < 0 then 0 else c - r)
    ensures Window(n, c, r) <= 2 * r + 1
  {
    if n > 0 {
      WindowBound(n - 1, c, r);
    }
  }

  lemma {:induction false} RowInkBound(row: seq<byte>, y: int, cx: int, cy: int, r: nat)
    ensures RowInk(row, y, cx, cy, r) <= Window(|row|, cx, r)
    ensures !(cy - r <= y <= cy + r) ==> RowInk(row, y, cx, cy, r) == 0
  {
    if |row| > 0 {
      var x := |row| - 1;
      RowInkBound(row[..x], y, cx, cy, r);
      if InBubble(cx, cy, r, x, y) {
        InBubbleBox(cx, cy, r, x, y);
      }
    }
  }

  lemma {:induction false} InkCountRows(img: BinaryImage, cx: int, cy: int, r: nat)
    ensures InkCount(img, cx, cy, r) <= (2 * r + 1) * Window(|img|, cy, r)
  {
    if |img| > 0 {
      var y := |img| - 1;
      var k := 2 * r + 1;
      InkCountRows(img[..y], cx, cy, r);
      RowInkBound(img[y], y, cx, cy, r);
      WindowBound(|img[y]|, cx, r);
      var w := Window(y, cy, r);
      if cy - r <= y <= cy + r {
        assert Window(|img|, cy, r) == w + 1;
        MulStep(k, w);
      } else {
        assert Window(|img|, cy, r) == w;
      }
    }
  }

  /** No bubble of radius r holds more than (2r+1)^2 foreground pixels. */
  lemma InkCountBound(img: BinaryImage, cx: int, cy: int, r: nat)
    ensures InkCount(img, cx, cy, r) <= (2 * r + 1) * (2 * r + 1)
  {
    var k := 2 * r + 1;
    InkCountRows(img, cx, cy, r);
    WindowBound(|img|, cy, r);
    MulMono(k, Window(|img|, cy, r), k);
  }
}
