/** Rendering one generation into the display's RGBA frame: a `width` by
    `height` image stored row by row, four bytes per pixel, white for a live
    cell and black for a dead one, always opaque.

    Which cell a pixel shows (an equirectangular projection of the pixel to a
    latitude and longitude, then the grid's geographic lookup) is the
    parameter `sample`, the state shown at pixel column `x` and row `y`. */
module Frame {

  /** Byte offset of pixel `(x, y)` in the frame. For an in-range column the
      pixel is recovered from the offset: it is a multiple of four whose pixel
      index `offset / 4` sits in column `x` of row `y`. */
  function PixelOffset(width: nat, x: nat, y: nat): (offset: nat)
    ensures x < width ==> offset % 4 == 0 && offset / 4 % width == x && offset / 4 / width == y
  {
    OffsetDecodes(width, x, y);
    (y * width + x) * 4
  }

  /** The four bytes (red, green, blue, alpha) of a pixel showing `alive`. */
  function PixelBytes(alive: bool): (rgba: seq<bv8>)
    ensures |rgba| == 4 && rgba[3] == 255
    ensures forall c :: 0 <= c < 3 ==> rgba[c] == if alive then 255 else 0
  {
    if alive then [255, 255, 255, 255] else [0, 0, 0, 255]
  }

  /** The frame byte by byte: byte `i` is byte `i % 4` of pixel `i / 4`, and
      pixel `k` sits in column `k % width` of row `k / width`. */
  function ExpectedFrame(width: nat, height: nat, sample: (nat, nat) -> bool): (frame: seq<bv8>)
    ensures |frame| == width * height * 4
  {
    if width == 0 then []
    else
      seq(width * height * 4, i requires 0 <= i =>
        var k := i / 4;
        PixelBytes(sample(k % width, k / width))[i % 4])
  }

  /** Multiplication by a natural number is monotonic. */
  lemma {:induction false} MulMonotonic(a: nat, b: nat, w: nat)
    requires a <= b
    ensures a * w <= b * w
  {
    if a < b {
      MulMonotonic(a, b - 1, w);
      assert b * w == (b - 1) * w + w;
    }
  }

  /** Euclidean division recovers quotient and remainder. */
  lemma DivModUnique(q: nat, r: nat, w: nat)
    requires r < w
    ensures (q * w + r) / w == q && (q * w + r) % w == r
  {
    var n := q * w + r;
    var q', r' := n / w, n % w;
    assert n == q' * w + r';
    if q' < q {
      MulMonotonic(q' + 1, q, w);
    } else if q' > q {
      MulMonotonic(q + 1, q', w);
    }
  }

  /** The offset arithmetic can be undone by division and remainder. */
  lemma OffsetDecodes(width: nat, x: nat, y: nat)
    ensures (y * width + x) * 4 % 4 == 0
    ensures x < width ==> (y * width + x) * 4 / 4 % width == x && (y * width + x) * 4 / 4 / width == y
  {
    DivModUnique(y * width + x, 0, 4);
    if x < width {
      DivModUnique(y, x, width);
    }
  }

  /** Every pixel's four bytes lie inside the frame. */
  lemma SlotInBounds(width: nat, height: nat, x: nat, y: nat)
    requires x < width && y < height
    ensures PixelOffset(width, x, y) + 3 < width * height * 4
  {
    MulMonotonic(y + 1, height, width);
    assert (y + 1) * width == y * width + width;
    assert height * width == width * height;
  }

  /** Distinct pixels occupy disjoint four-byte slots. */
  lemma SlotsDisjoint(width: nat, x1: nat, y1: nat, x2: nat, y2: nat)
    requires x1 < width && x2 < width
    requires (x1, y1) != (x2, y2)
    ensures PixelOffset(width, x1, y1) + 4 <= PixelOffset(width, x2, y2)
         || PixelOffset(width, x2, y2) + 4 <= PixelOffset(width, x1, y1)
  {
    if y1 < y2 {
      MulMonotonic(y1 + 1, y2, width);
      assert (y1 + 1) * width == y1 * width + width;
    } else if y2 < y1 {
      MulMonotonic(y2 + 1, y1, width);
      assert (y2 + 1) * width == y2 * width + width;
    }
  }

  /** The expected frame holds, at pixel `(x, y)`, the colour of `sample(x, y)`:
      red, green and blue all 255 for a live cell and all 0 for a dead one,
      alpha 255. */
  lemma FramePixel(width: nat, height: nat, sample: (nat, nat) -> bool, x: nat, y: nat, c: nat)
    requires x < width && y < height && c < 4
    ensures PixelOffset(width, x, y) + c < |ExpectedFrame(width, height, sample)|
    ensures ExpectedFrame(width, height, sample)[PixelOffset(width, x, y) + c]
         == PixelBytes(sample(x, y))[c]
  {
    SlotInBounds(width, height, x, y);
    var k := y * width + x;
    DivModUnique(k, c, 4);
    DivModUnique(y, x, width);
  }

  /** Every byte of the frame belongs to exactly one pixel of the image. */
  lemma ByteOwner(width: nat, height: nat, i: nat)
    requires i < width * height * 4
    ensures width > 0 && i / 4 % width < width && i / 4 / width < height
    ensures i == PixelOffset(width, i / 4 % width, i / 4 / width) + i % 4
  {
    var k := i / 4;
    assert i == k * 4 + i % 4;
    assert k == k / width * width + k % width;
    if k / width >= height {
      MulMonotonic(height, k / width, width);
    }
  }

  /** The first `n` bytes of `frame` are those of `expected`. */
  ghost predicate Agrees(frame: seq<bv8>, expected: seq<bv8>, n: nat)
  {
    n <= |frame| && n <= |expected| && forall j :: 0 <= j < n ==> frame[j] == expected[j]
  }

  /** The render loop of the example: for every row `y` and every column `x`
      write pixel `(x, y)`'s four bytes at offset `(y * width + x) * 4`. The
      frame is the display's pixel buffer, sized `width * height * 4`. */
  method Fill(frame: array<bv8>, width: nat, height: nat, sample: (nat, nat) -> bool)
    requires frame.Length == width * height * 4
    modifies frame
    ensures frame[..] == ExpectedFrame(width, height, sample)
  {
    ghost var expected := ExpectedFrame(width, height, sample);
    var y := 0;
    while y < height
      invariant y <= height
      invariant Agrees(frame[..], expected, PixelOffset(width, 0, y))
    {
      var x := 0;
      while x < width
        invariant x <= width
        invariant Agrees(frame[..], expected, PixelOffset(width, x, y))
      {
        var i := (y * width + x) * 4;
        assert i + 3 < frame.Length by {
          SlotInBounds(width, height, x, y);
        }
        ghost var before := frame[..];
        if sample(x, y) {
          frame[i] := 255;
          frame[i + 1] := 255;
          frame[i + 2] := 255;
        } else {
          frame[i] := 0;
          frame[i + 1] := 0;
          frame[i + 2] := 0;
        }
        frame[i + 3] := 255;
        assert Agrees(frame[..], expected, i + 4) by {
          forall j | 0 <= j < i + 4
            ensures frame[j] == expected[j]
          {
            if j < i {
              assert frame[j] == before[j];
            } else {
              FramePixel(width, height, sample, x, y, j - i);
            }
          }
        }
        assert PixelOffset(width, x + 1, y) == i + 4;
        x := x + 1;
      }
      assert PixelOffset(width, width, y) == PixelOffset(width, 0, y + 1);
      y := y + 1;
    }
    assert PixelOffset(width, 0, height) == width * height * 4;
  }
}
