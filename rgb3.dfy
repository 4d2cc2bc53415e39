/**
 * The packed 24-bit RGB ("RGB3") frame decoder (frame/rgb3.go).
 *
 * A framer is built once per negotiated width and height and knows the exact
 * length a raw buffer must have. Wrapping a buffer either fails, handing the
 * buffer straight back to the driver through its release callback, or yields
 * a read-only frame that borrows the buffer without copying it.
 */
module RGB3 {
  import opened Wrappers
  import opened Arith

  type byte = x: int | 0 <= x < 256

  const BytesPerPixel := 3
  /** Row width alignment in pixels when padding is on. */
  const RowAlign := 32
  /** Row count alignment when padding is on. */
  const HeightAlign := 16
  /** Largest value of Go's 64-bit `int`. */
  const MaxInt := 0x7FFF_FFFF_FFFF_FFFF
  /** Largest width or height for which the buffer size cannot overflow `MaxInt`. */
  const MaxDimension := 0x4000_0000
  const Opaque: byte := 0xFF

  predicate ValidDims(w: int, h: int)
  {
    0 <= w <= MaxDimension && 0 <= h <= MaxDimension
  }

  /** The two power-of-two alignments the framer uses. */
  predicate IsAlignment(align: int)
  {
    align == RowAlign || align == HeightAlign
  }

  /**
   * Go's `x &^ (align - 1)` for a power-of-two `align`: clearing the low bits
   * of a two's-complement integer yields the largest multiple of `align` not
   * above it.
   */
  function ClearLowBits(x: int, align: int): (r: int)
    requires IsAlignment(align)
    ensures r % align == 0 && r <= x < r + align
  {
    var q := x / align;
    MultipleHasNoRemainder(q, align);
    assert x - x % align == q * align;
    x - x % align
  }

  /** `(x + align - 1) &^ (align - 1)`, the rounding used for padded rows and heights. */
  function RoundUp(x: int, align: int): (r: int)
    requires IsAlignment(align)
    ensures r % align == 0 && x <= r < x + align
  {
    ClearLowBits(x + align - 1, align)
  }

  /** RoundUp yields the least multiple of `align` that is at least `x`. */
  lemma RoundUpIsLeastMultiple(x: int, align: int)
    requires IsAlignment(align)
    ensures RoundUp(x, align) % align == 0
    ensures x <= RoundUp(x, align) < x + align
    ensures forall m :: m % align == 0 && x <= m ==> RoundUp(x, align) <= m
  {
    var r := RoundUp(x, align);
    forall m | m % align == 0 && x <= m
      ensures r <= m
    {
      MultiplesOrdered(m, r, align);
    }
  }

  /**
   * What newFramerRGB3 captures in the decoding closure it returns: the
   * expected buffer size, the row width `bw` used for addressing, and the
   * requested width and height.
   */
  datatype Framer = Framer(size: int, bw: int, w: int, h: int)

  /**
   * newFramerRGB3: with padding the row width is rounded up to a multiple of
   * 32 and the row count to a multiple of 16; without padding the size is
   * 3*w*h and `bw` is left at its zero value.
   */
  function NewFramerRGB3(w: int, h: int, padded: bool): (fr: Framer)
    requires ValidDims(w, h)
    ensures fr.w == w && fr.h == h
    ensures 0 <= fr.size <= MaxInt
    ensures padded ==> fr.bw % RowAlign == 0 && w <= fr.bw < w + RowAlign
    ensures padded ==> fr.size == BytesPerPixel * fr.bw * RoundUp(h, HeightAlign)
    ensures !padded ==> fr.bw == 0 && fr.size == BytesPerPixel * w * h
  {
    RoundUpIsLeastMultiple(w, RowAlign);
    RoundUpIsLeastMultiple(h, HeightAlign);
    if padded then
      var bw := RoundUp(w, RowAlign);
      var rows := RoundUp(h, HeightAlign);
      assert bw <= MaxDimension && rows <= MaxDimension;
      SizeFits(bw, rows);
      Framer(3 * bw * rows, bw, w, h)
    else
      SizeFits(h, w);
      Framer(3 * h * w, 0, w, h)
  }

  /** Three bytes per pixel over at most MaxDimension x MaxDimension pixels fit in a Go `int`. */
  lemma SizeFits(a: int, b: int)
    requires 0 <= a <= MaxDimension && 0 <= b <= MaxDimension
    ensures 0 <= 3 * a * b <= MaxInt
  {
    MulMonotone(a, MaxDimension, b, MaxDimension);
    assert 3 * a * b == 3 * (a * b);
  }

  /** A padded 50x10 frame has 64-pixel rows, 16 rows and 3072 bytes. */
  lemma PaddedExample()
    ensures NewFramerRGB3(50, 10, true) == Framer(3072, 64, 50, 10)
  {
  }

  datatype Point = Point(X: int, Y: int)

  /** An image rectangle: `Min` inclusive, `Max` exclusive. */
  datatype Rectangle = Rectangle(Min: Point, Max: Point)
  {
    predicate Contains(p: Point)
    {
      Min.X <= p.X < Max.X && Min.Y <= p.Y < Max.Y
    }
  }

  /** image.Rect: the rectangle with the given corners, put into canonical order. */
  function Rect(x0: int, y0: int, x1: int, y1: int): (r: Rectangle)
    ensures r.Min.X <= r.Max.X && r.Min.Y <= r.Max.Y
    ensures {r.Min.X, r.Max.X} == {x0, x1} && {r.Min.Y, r.Max.Y} == {y0, y1}
  {
    var (lx, hx) := if x0 <= x1 then (x0, x1) else (x1, x0);
    var (ly, hy) := if y0 <= y1 then (y0, y1) else (y1, y0);
    Rectangle(Point(lx, ly), Point(hx, hy))
  }

  /** A pixel colour: red, green, blue and alpha. */
  datatype RGBA = RGBA(R: byte, G: byte, B: byte, A: byte)

  /**
   * The release callback a raw buffer arrives with: it hands the buffer back
   * to the driver. `calls` counts how often it has been invoked.
   */
  class Releaser {
    var calls: nat

    constructor ()
      ensures calls == 0
    {
      calls := 0;
    }

    method Invoke()
      modifies this
      ensures calls == old(calls) + 1
    {
      calls := calls + 1;
    }
  }

  /** fRGB3: a frame that borrows the raw buffer of the driver. */
  class Frame {
    const bounds: Rectangle
    const width: int
    const frame: array<byte>
    const release: Releaser?

    constructor (bounds: Rectangle, width: int, frame: array<byte>, release: Releaser?)
      ensures this.bounds == bounds && this.width == width
      ensures this.frame == frame && this.release == release
    {
      this.bounds := bounds;
      this.width := width;
      this.frame := frame;
      this.release := release;
    }

    /** The rectangle fixed when the buffer was wrapped. */
    function Bounds(): (r: Rectangle)
      ensures r == bounds
    {
      bounds
    }

    /** Byte offset of the pixel at (x, y). */
    function Offset(x: int, y: int): (i: int)
    {
      width * y * 3 + x * 3
    }

    /** The three bytes at the pixel's offset, as red, green and blue, fully opaque. */
    function At(x: int, y: int): (c: RGBA)
      reads frame
      requires 0 <= Offset(x, y) && Offset(x, y) + 2 < frame.Length
      ensures c.A == Opaque
      ensures [c.R, c.G, c.B] == frame[Offset(x, y) .. Offset(x, y) + 3]
    {
      var i := Offset(x, y);
      RGBA(frame[i], frame[i + 1], frame[i + 2], Opaque)
    }

    /** Hand the buffer back to the driver, if the frame was given a callback. */
    method Release()
      modifies release
      ensures release != null ==> release.calls == old(release.calls) + 1
    {
      if release != null {
        release.Invoke();
      }
    }
  }

  /** The error returned for a buffer of the wrong length. */
  datatype FrameError = WrongFrameLength(expected: int, read: int)

  /** `f` is what a successful decode with framer `fr` produces. */
  ghost predicate Accepts(fr: Framer, f: Frame)
  {
    f.frame.Length == fr.size && f.width == fr.bw && f.bounds == Rect(0, 0, fr.w, fr.h)
  }

  /**
   * frameRGB3: a buffer of any length other than `size` is released (once, if
   * a callback was given) and rejected; otherwise it is wrapped as it is.
   */
  method FrameRGB3(size: int, bw: int, w: int, h: int, b: array<byte>, rel: Releaser?)
    returns (r: Result<Frame, FrameError>)
    modifies rel
    ensures r.Failure? <==> b.Length != size
    ensures r.Failure? ==> r.error == WrongFrameLength(size, b.Length)
    ensures rel != null ==> rel.calls == old(rel.calls) + (if r.Failure? then 1 else 0)
    ensures r.Success? ==> fresh(r.value)
    ensures r.Success? ==> r.value.frame == b && r.value.release == rel
    ensures r.Success? ==> r.value.width == bw && r.value.bounds == Rect(0, 0, w, h)
  {
    if b.Length != size {
      if rel != null {
        rel.Invoke();
      }
      return Failure(WrongFrameLength(size, b.Length));
    }
    var f := new Frame(Rect(0, 0, w, h), bw, b, rel);
    return Success(f);
  }

  /** The decoding closure returned by newFramerRGB3. */
  method Decode(fr: Framer, b: array<byte>, rel: Releaser?) returns (r: Result<Frame, FrameError>)
    modifies rel
    ensures r.Failure? <==> b.Length != fr.size
    ensures r.Failure? ==> r.error == WrongFrameLength(fr.size, b.Length)
    ensures rel != null ==> rel.calls == old(rel.calls) + (if r.Failure? then 1 else 0)
    ensures r.Success? ==> fresh(r.value) && Accepts(fr, r.value)
    ensures r.Success? ==> r.value.frame == b && r.value.release == rel
  {
    r := FrameRGB3(fr.size, fr.bw, fr.w, fr.h, b, rel);
  }

  /**
   * A consumer that decodes a buffer and releases the frame when decoding
   * succeeded hands the buffer back exactly once on either path.
   */
  method DecodeAndRelease(fr: Framer, b: array<byte>, rel: Releaser) returns (ok: bool)
    modifies rel
    ensures ok <==> b.Length == fr.size
    ensures rel.calls == old(rel.calls) + 1
  {
    var r := Decode(fr, b, rel);
    ok := r.Success?;
    if ok {
      r.value.Release();
    }
  }

  /** The pixel domain of an accepted frame is the requested w x h rectangle. */
  lemma AcceptedBounds(fr: Framer, f: Frame)
    requires fr.w >= 0 && fr.h >= 0 && Accepts(fr, f)
    ensures f.Bounds().Min == Point(0, 0) && f.Bounds().Max == Point(fr.w, fr.h)
    ensures forall p :: f.Bounds().Contains(p) <==> 0 <= p.X < fr.w && 0 <= p.Y < fr.h
  {
  }

  /** At stays inside an accepted buffer for every pixel in bounds, padded or not. */
  lemma AtInBounds(w: int, h: int, padded: bool, f: Frame, x: int, y: int)
    requires ValidDims(w, h)
    requires Accepts(NewFramerRGB3(w, h, padded), f)
    requires f.Bounds().Contains(Point(x, y))
    ensures 0 <= f.Offset(x, y) && f.Offset(x, y) + 2 < f.frame.Length
  {
    var fr := NewFramerRGB3(w, h, padded);
    if padded {
      RoundUpIsLeastMultiple(h, HeightAlign);
      StridedOffsetFits(fr.bw, RoundUp(h, HeightAlign), x, y);
    } else {
      RowZeroOffsetFits(w, h, x);
    }
  }

  /** With a row width `bw` and `rows` rows, pixel (x, y) with x < bw and y < rows lies inside 3*bw*rows bytes. */
  lemma StridedOffsetFits(bw: int, rows: int, x: int, y: int)
    requires 0 <= x < bw && 0 <= y < rows
    ensures 0 <= bw * y * 3 + x * 3
    ensures bw * y * 3 + x * 3 + 2 < 3 * bw * rows
  {
    MulMonotone(y + 1, rows, bw, bw);
    assert (y + 1) * bw == bw * y + bw;
    assert 3 * bw * rows == 3 * (rows * bw);
  }

  /** Pixel (x, 0) of a w x h frame with h >= 1 lies inside 3*h*w bytes. */
  lemma RowZeroOffsetFits(w: int, h: int, x: int)
    requires 0 <= x < w && 1 <= h
    ensures x * 3 + 2 < 3 * h * w
  {
    MulMonotone(1, h, w, w);
    assert 3 * h * w == 3 * (h * w);
  }

  /** Without padding the stored row width is 0, so every row reads the pixels of row 0. */
  lemma UnpaddedAtIgnoresRow(w: int, h: int, f: Frame, x: int, y: int)
    requires ValidDims(w, h)
    requires Accepts(NewFramerRGB3(w, h, false), f)
    requires f.Bounds().Contains(Point(x, y))
    ensures 0 <= f.Offset(x, 0) && f.Offset(x, 0) + 2 < f.frame.Length
    ensures f.At(x, y) == f.At(x, 0)
  {
    AtInBounds(w, h, false, f, x, y);
  }

  /**
   * A 2x2 unpadded frame holding the bytes 0..11: the pixel at (0, 1) reads
   * bytes 0..2 rather than the second row's bytes 6..8.
   */
  lemma UnpaddedSecondRowReadsFirst(f: Frame)
    requires Accepts(NewFramerRGB3(2, 2, false), f)
    requires f.frame[..] == [0, 1, 2, 3, 4, 5, 6, 7, 8, 9, 10, 11]
    ensures f.At(0, 1) == RGBA(0, 1, 2, Opaque)
    ensures f.At(0, 1) != RGBA(f.frame[6], f.frame[7], f.frame[8], Opaque)
  {
    assert f.frame[0] == f.frame[..][0];
    assert f.frame[6] == f.frame[..][6];
  }

  /** newFramerRGB3 with the unpadded row width set to the frame width. */
  function NewFramerRGB3Corrected(w: int, h: int, padded: bool): (fr: Framer)
    requires ValidDims(w, h)
    ensures fr.w == w && fr.h == h
    ensures 0 <= fr.size <= MaxInt
    ensures padded ==> fr == NewFramerRGB3(w, h, padded)
    ensures !padded ==> fr.bw == w && fr.size == BytesPerPixel * w * h
  {
    var fr := NewFramerRGB3(w, h, padded);
    if padded then fr else fr.(bw := w)
  }

  /**
   * With the corrected framer an unpadded frame is addressed row by row:
   * pixel (x, y) is the three bytes at 3*(w*y + x), inside the buffer.
   */
  lemma CorrectedAddressing(w: int, h: int, padded: bool, f: Frame, x: int, y: int)
    requires ValidDims(w, h)
    requires Accepts(NewFramerRGB3Corrected(w, h, padded), f)
    requires f.Bounds().Contains(Point(x, y))
    ensures 0 <= f.Offset(x, y) && f.Offset(x, y) + 2 < f.frame.Length
    ensures !padded ==> f.Offset(x, y) == BytesPerPixel * (w * y + x)
  {
    if padded {
      AtInBounds(w, h, padded, f, x, y);
    } else {
      StridedOffsetFits(w, h, x, y);
      assert f.Offset(x, y) == BytesPerPixel * (w * y + x);
    }
  }
}
