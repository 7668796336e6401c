/**
 The copy-returning transformations of `ppm_image` whose behaviour is pure
 integer index arithmetic: `invert`, `flip_horizontal`, the nearest-neighbour
 `resize` and the row coverage of `grayscale`. Each one starts from a copy of
 the receiver, so the receiver itself is never changed.
 */
module Transforms {
  import opened Pixels
  import opened Images

  /** Applies `f` to every pixel of the first `n` rows and keeps the other
      rows as they are: the loop nest shared by `invert` and `grayscale`. */
  function MapRows(img: Image, f: Pixel -> Pixel, n: int): (r: Image)
    requires Valid(img) && 0 <= n <= img.height
    ensures Valid(r) && r.width == img.width && r.height == img.height
    ensures forall i, j :: 0 <= i < n && 0 <= j < img.width ==> Get(r, i, j) == f(Get(img, i, j))
    ensures forall i :: n <= i < img.height ==> r.grid[i] == img.grid[i]
  {
    img.(grid := seq(img.height, i requires 0 <= i < img.height =>
      if i < n then seq(|img.grid[i]|, j requires 0 <= j < |img.grid[i]| => f(img.grid[i][j]))
      else img.grid[i]))
  }

  // ---------------------------------------------------------------- invert

  /** `invert`: every channel `c` becomes `255 - c`; the shape is kept. */
  function Invert(img: Image): (r: Image)
    requires Valid(img)
    ensures Valid(r) && r.width == img.width && r.height == img.height
    ensures forall i, j :: 0 <= i < img.height && 0 <= j < img.width ==>
              var p, q := Get(img, i, j), Get(r, i, j);
              q.r == MaxChannel - p.r && q.g == MaxChannel - p.g && q.b == MaxChannel - p.b
  {
    MapRows(img, InvertPixel, img.height)
  }

  /** Inverting twice gives back the original image. */
  lemma InvertInvolution(img: Image)
    requires Valid(img)
    ensures Invert(Invert(img)) == img
  {
    SamePixels(Invert(Invert(img)), img);
  }

  // ------------------------------------------------------- flip_horizontal

  /** The reference meaning of `flip_horizontal`: row `i` of the result is
      row `height - 1 - i` of the input (a mirror about the horizontal
      midline). */
  function Flipped(img: Image): (r: Image)
    requires Valid(img)
    ensures Valid(r) && r.width == img.width && r.height == img.height
    ensures forall i, j :: 0 <= i < img.height && 0 <= j < img.width ==>
              Get(r, i, j) == Get(img, img.height - 1 - i, j)
  {
    img.(grid := seq(img.height, i requires 0 <= i < img.height => img.grid[img.height - 1 - i]))
  }

  /** `flip_horizontal` as the C++ code computes it: on a copy, swap pixel
      `(i, j)` with pixel `(height - 1 - i, j)` for every row `i` above the
      midline and every column `j`. */
  method FlipHorizontal(img: Image) returns (flipped: Image)
    requires Valid(img)
    ensures flipped == Flipped(img)
  {
    var g := img.grid;
    var h, w := img.height, img.width;
    var i := 0;
    while i < h / 2
      invariant 0 <= i <= h / 2
      invariant Shaped(g, w, h)
      invariant forall k, c :: (0 <= k < i || h - i <= k < h) && 0 <= c < w ==>
                  g[k][c] == img.grid[h - 1 - k][c]
      invariant forall k, c :: i <= k < h - i && 0 <= c < w ==> g[k][c] == img.grid[k][c]
    {
      var top := h - 1 - i;
      var j := 0;
      while j < w
        invariant 0 <= j <= w
        invariant Shaped(g, w, h)
        invariant forall k, c :: (0 <= k < i || top < k < h) && 0 <= c < w ==>
                    g[k][c] == img.grid[h - 1 - k][c]
        invariant forall k, c :: i < k < top && 0 <= c < w ==> g[k][c] == img.grid[k][c]
        invariant forall c :: 0 <= c < j ==> g[i][c] == img.grid[top][c] && g[top][c] == img.grid[i][c]
        invariant forall c :: j <= c < w ==> g[i][c] == img.grid[i][c] && g[top][c] == img.grid[top][c]
      {
        var a, b := g[i][j], g[top][j];
        g := g[i := g[i][j := b]];
        g := g[top := g[top][j := a]];
        j := j + 1;
      }
      i := i + 1;
    }
    flipped := Image(w, h, g);
    SamePixels(flipped, Flipped(img));
  }

  /** Flipping twice gives back the original image. */
  lemma FlippedInvolution(img: Image)
    requires Valid(img)
    ensures Flipped(Flipped(img)) == img
  {
  }

  /** With an odd number of rows the middle row stays where it is. */
  lemma FlippedMiddleRow(img: Image)
    requires Valid(img) && img.height % 2 == 1
    ensures Flipped(img).grid[img.height / 2] == img.grid[img.height / 2]
  {
  }

  // ---------------------------------------------------------------- resize

  /** The source row (or column) that output row (or column) `i` of a
      resize to `n` reads from, for a source of `size` rows (or columns):
      `i * size / n`. All operands are non-negative, so C++'s truncating
      division and Dafny's agree. */
  function SourceIndex(i: int, n: int, size: int): int
    requires n > 0
  {
    i * size / n
  }

  /** The index arithmetic never leaves the source image. */
  lemma SourceIndexInBounds(i: int, n: int, size: int)
    requires 0 <= i < n && size > 0
    ensures 0 <= SourceIndex(i, n, size) < size
  {
  }

  /** For every output row and column at once. */
  lemma SourceIndicesInBounds(n: int, size: int)
    requires size > 0
    ensures forall i :: 0 <= i < n ==> 0 <= SourceIndex(i, n, size) < size
  {
    forall i | 0 <= i < n
      ensures 0 <= SourceIndex(i, n, size) < size
    {
      SourceIndexInBounds(i, n, size);
    }
  }

  /** At the source's own size the index arithmetic is the identity. */
  lemma SourceIndexSameSize(i: int, n: int)
    requires 0 <= i < n
    ensures SourceIndex(i, n, n) == i
  {
    var q, m := i * n / n, i * n % n;
    assert i * n == q * n + m;
    assert (i - q) * n == m by {
      assert (i - q) * n == i * n - q * n;
    }
    MulStrictMono(i - q, 1, n);
    MulStrictMono(-1, i - q, n);
  }

  /** `resize` reads `data[i * height / h][j * width / w]`, which is inside
      the source only when the source has pixels to read. */
  predicate ResizeReadsInBounds(img: Image, w: int, h: int) {
    h > 0 && w > 0 ==> img.height > 0 && img.width > 0
  }

  /** The `h` rows of `w` pixels `resize` fills in, each taken from the
      nearest source pixel. */
  function NearestGrid(img: Image, w: int, h: int): (grid: seq<seq<Pixel>>)
    requires Valid(img) && ResizeReadsInBounds(img, w, h)
    requires Allocatable(w, h)
    ensures Shaped(grid, w, h)
    ensures forall i :: 0 <= i < h && w > 0 ==> 0 <= SourceIndex(i, h, img.height) < img.height
    ensures forall j :: 0 <= j < w && h > 0 ==> 0 <= SourceIndex(j, w, img.width) < img.width
    ensures forall i, j :: 0 <= i < h && 0 <= j < w ==>
              grid[i][j] == Get(img, SourceIndex(i, h, img.height), SourceIndex(j, w, img.width))
  {
    if h == 0 || w <= 0 then seq(h, _ => [])
    else
      SourceIndicesInBounds(h, img.height);
      SourceIndicesInBounds(w, img.width);
      seq(h, i requires 0 <= i < h =>
        seq(w, j requires 0 <= j < w =>
          img.grid[SourceIndex(i, h, img.height)][SourceIndex(j, w, img.width)]))
  }

  /** `resize(w, h)` as written: the result is a copy of the receiver whose
      `data` alone is replaced, so its `width()` and `height()` still report
      the receiver's dimensions. */
  function ResizeAsWritten(img: Image, w: int, h: int): (r: Result<Image>)
    requires Valid(img) && ResizeReadsInBounds(img, w, h)
    ensures r.Ok? <==> Allocatable(w, h)
    ensures r.Ok? ==> r.value.width == img.width && r.value.height == img.height
    ensures r.Ok? ==> Shaped(r.value.grid, w, h)
  {
    if !Allocatable(w, h) then Err(BadArrayNewLength)
    else Ok(img.(grid := NearestGrid(img, w, h)))
  }

  /** `resize(w, h)` with the dimensions the result evidently should have:
      a valid `w` by `h` image whose pixel `(i, j)` is source pixel
      `(i * height / h, j * width / w)`. */
  function Resize(img: Image, w: int, h: int): (r: Result<Image>)
    requires Valid(img) && ResizeReadsInBounds(img, w, h)
    ensures r.Ok? <==> Allocatable(w, h)
    ensures r.Ok? ==> Valid(r.value) && r.value.width == w && r.value.height == h
    ensures forall i :: 0 <= i < h && w > 0 ==> 0 <= SourceIndex(i, h, img.height) < img.height
    ensures forall j :: 0 <= j < w && h > 0 ==> 0 <= SourceIndex(j, w, img.width) < img.width
    ensures r.Ok? ==> forall i, j :: 0 <= i < h && 0 <= j < w ==>
              Get(r.value, i, j) == Get(img, SourceIndex(i, h, img.height), SourceIndex(j, w, img.width))
  {
    if !Allocatable(w, h) then Err(BadArrayNewLength)
    else Ok(Image(w, h, NearestGrid(img, w, h)))
  }

  /** The written and the corrected resize compute the same pixels; they
      differ only in the dimensions they report. */
  lemma ResizeAsWrittenSamePixels(img: Image, w: int, h: int)
    requires Valid(img) && ResizeReadsInBounds(img, w, h) && Allocatable(w, h)
    ensures ResizeAsWritten(img, w, h).value.grid == Resize(img, w, h).value.grid
    ensures ResizeAsWritten(img, w, h).value == Resize(img, w, h).value.(width := img.width, height := img.height)
  {
  }

  /** The object `resize` builds for a 1 by 1 image resized to 2 by 2
      reports 1 by 1 but holds 2 rows of 2 pixels: it breaks the class
      invariant. */
  lemma ResizeAsWrittenBreaksInvariant()
    ensures var img := Create(1, 1).value;
            && ResizeAsWritten(img, 2, 2).Ok?
            && ResizeAsWritten(img, 2, 2).value.width == 1
            && |ResizeAsWritten(img, 2, 2).value.grid| == 2
            && !Valid(ResizeAsWritten(img, 2, 2).value)
            && Valid(Resize(img, 2, 2).value)
  {
  }

  /** Resizing to the image's own size reproduces the image. */
  lemma ResizeSameSize(img: Image)
    requires Valid(img)
    ensures Resize(img, img.width, img.height) == Ok(img)
  {
    var r := Resize(img, img.width, img.height);
    forall i, j | 0 <= i < img.height && 0 <= j < img.width
      ensures Get(r.value, i, j) == Get(img, i, j)
    {
      SourceIndexSameSize(i, img.height);
      SourceIndexSameSize(j, img.width);
    }
    ValidIsAllocatable(img);
    SamePixels(r.value, img);
  }

  /** At the image's own size the written resize also reproduces the
      image, header included. */
  lemma ResizeAsWrittenSameSize(img: Image)
    requires Valid(img)
    ensures ResizeAsWritten(img, img.width, img.height) == Ok(img)
  {
    ValidIsAllocatable(img);
    ResizeSameSize(img);
    ResizeAsWrittenSamePixels(img, img.width, img.height);
  }

  // ------------------------------------------------------------- grayscale

  /** `grayscale` as written: its row loop stops at `height / 2`, so only
      the upper half of the rows becomes gray and the rest is copied. The
      luminance `luma` stands for the C++ code's float computation. */
  function GrayscaleAsWritten(img: Image, luma: Pixel -> Channel): (r: Image)
    requires Valid(img)
    ensures Valid(r) && r.width == img.width && r.height == img.height
    ensures forall i, j :: 0 <= i < img.height / 2 && 0 <= j < img.width ==>
              IsGray(Get(r, i, j)) && Get(r, i, j).r == luma(Get(img, i, j))
    ensures forall i :: img.height / 2 <= i < img.height ==> r.grid[i] == img.grid[i]
  {
    MapRows(img, p => GrayPixel(luma, p), img.height / 2)
  }

  /** `grayscale` over every row, as its comment promises. */
  function Grayscale(img: Image, luma: Pixel -> Channel): (r: Image)
    requires Valid(img)
    ensures Valid(r) && r.width == img.width && r.height == img.height
    ensures forall i, j :: 0 <= i < img.height && 0 <= j < img.width ==>
              IsGray(Get(r, i, j)) && Get(r, i, j).r == luma(Get(img, i, j))
  {
    MapRows(img, p => GrayPixel(luma, p), img.height)
  }

  /** The written loop agrees with the full conversion on the upper half
      and leaves the lower half untouched. */
  lemma GrayscaleAsWrittenUpperHalf(img: Image, luma: Pixel -> Channel)
    requires Valid(img)
    ensures forall i :: 0 <= i < img.height / 2 ==>
              GrayscaleAsWritten(img, luma).grid[i] == Grayscale(img, luma).grid[i]
    ensures forall i :: img.height / 2 <= i < img.height ==>
              GrayscaleAsWritten(img, luma).grid[i] == img.grid[i]
  {
  }

  /** A single-row image comes back from the written `grayscale` unchanged. */
  lemma GrayscaleAsWrittenSkipsSingleRow(img: Image, luma: Pixel -> Channel)
    requires Valid(img) && img.height == 1
    ensures GrayscaleAsWritten(img, luma) == img
  {
  }

  /** A one-column image whose lower pixel is pure red still has a red,
      non-gray pixel after the written `grayscale`, whatever the luminance. */
  lemma GrayscaleAsWrittenMissesLowerRow(luma: Pixel -> Channel)
    ensures var img := Image(1, 2, [[White], [Pixel(255, 0, 0)]]);
            && !IsGray(Get(GrayscaleAsWritten(img, luma), 1, 0))
            && IsGray(Get(Grayscale(img, luma), 1, 0))
  {
  }
}
