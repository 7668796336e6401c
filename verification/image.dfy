/**
 The `ppm_image` container: `height` rows of `width` pixels, built by the
 constructors and `create_data`, deep-copied by the copy constructor, and
 read and written one pixel at a time by `get` and `set`. The `width()` and
 `height()` accessors are the `width` and `height` fields of `Image`.
 */
module Images {
  import opened Pixels

  /** The pixel grid is row-major: `grid[row][col]`. The dimensions are the
      C++ code's `int` fields, kept separately from the grid because `resize`
      (as written) lets them disagree. */
  datatype Image = Image(width: int, height: int, grid: seq<seq<Pixel>>)

  /** Why a constructor cannot produce an image: C++ array `new` with a
      negative length throws `std::bad_array_new_length`. */
  datatype Error = BadArrayNewLength

  datatype Result<T> = Ok(value: T) | Err(error: Error)

  /** The grid has exactly `h` rows of exactly `w` pixels. */
  predicate Shaped(grid: seq<seq<Pixel>>, w: int, h: int) {
    && |grid| == h
    && forall i :: 0 <= i < |grid| ==> |grid[i]| == w
  }

  /** The class invariant: the buffer holds exactly `height` rows of
      exactly `width` pixels. */
  predicate Valid(img: Image) {
    img.height >= 0 && Shaped(img.grid, img.width, img.height)
  }

  /** `create_data` allocates `new ppm_pixel*[h]` and then, once per row,
      `new ppm_pixel[w]`; it throws exactly when one of these lengths is
      negative and is evaluated. With `h == 0` no row is allocated, so a
      negative `w` is harmless. */
  predicate Allocatable(w: int, h: int) {
    h >= 0 && (h == 0 || w >= 0)
  }

  /** Multiplying by a positive number keeps strict order, both ways. */
  lemma MulStrictMono(a: int, b: int, n: int)
    requires n > 0
    ensures a < b <==> a * n < b * n
  {
  }

  /** A valid image has dimensions `create_data` can allocate. */
  lemma ValidIsAllocatable(img: Image)
    requires Valid(img)
    ensures Allocatable(img.width, img.height)
  {
    if img.height > 0 {
      assert |img.grid[0]| == img.width;
    }
  }

  /** The pixel `get(row, col)` returns. The C++ code does no bounds
      check, so the indices must lie in the grid. */
  function Get(img: Image, row: int, col: int): Pixel
    requires Valid(img)
    requires 0 <= row < img.height && 0 <= col < img.width
  {
    img.grid[row][col]
  }

  /** Two images of the same shape that agree on every pixel are equal. */
  lemma SamePixels(a: Image, b: Image)
    requires Valid(a) && Valid(b)
    requires a.width == b.width && a.height == b.height
    requires forall i, j :: 0 <= i < a.height && 0 <= j < a.width ==> Get(a, i, j) == Get(b, i, j)
    ensures a == b
  {
    forall i | 0 <= i < a.height
      ensures a.grid[i] == b.grid[i]
    {
      assert |a.grid[i]| == a.width == |b.grid[i]|;
      assert forall j :: 0 <= j < a.width ==> a.grid[i][j] == Get(a, i, j) == Get(b, i, j) == b.grid[i][j];
    }
    assert a.grid == b.grid;
  }

  /** A `w` by `h` grid with every pixel `p`. */
  function Filled(w: nat, h: nat, p: Pixel): (grid: seq<seq<Pixel>>)
    ensures Shaped(grid, w, h)
    ensures forall i, j :: 0 <= i < h && 0 <= j < w ==> grid[i][j] == p
  {
    seq(h, _ => seq(w, _ => p))
  }

  /** `ppm_image(w, h)`: sets the dimensions and lets `create_data` fill
      the grid with white. */
  function Create(w: int, h: int): (r: Result<Image>)
    ensures r.Ok? <==> Allocatable(w, h)
    ensures r.Ok? ==> Valid(r.value) && r.value.width == w && r.value.height == h
    ensures r.Ok? ==> forall i, j :: 0 <= i < h && 0 <= j < w ==> Get(r.value, i, j) == White
  {
    if !Allocatable(w, h) then Err(BadArrayNewLength)
    else if h == 0 then Ok(Image(w, 0, []))
    else Ok(Image(w, h, Filled(w, h, White)))
  }

  /** `ppm_image()`: the empty image. */
  function Empty(): (img: Image)
    ensures Valid(img) && img.width == 0 && img.height == 0
    ensures Create(0, 0) == Ok(img)
  {
    Image(0, 0, [])
  }

  /** The copy constructor: allocates fresh rows and copies the source's
      pixels one by one. As values, the copy is the original image. */
  method Copy(orig: Image) returns (copy: Image)
    requires Valid(orig)
    ensures copy == orig
  {
    var rows: seq<seq<Pixel>> := [];
    var i := 0;
    while i < orig.height
      invariant 0 <= i <= orig.height
      invariant rows == orig.grid[..i]
    {
      assert |orig.grid[i]| == orig.width;
      var row: seq<Pixel> := [];
      var j := 0;
      while j < orig.width
        invariant 0 <= j <= orig.width
        invariant row == orig.grid[i][..j]
      {
        row := row + [orig.grid[i][j]];
        j := j + 1;
      }
      assert row == orig.grid[i];
      rows := rows + [row];
      i := i + 1;
    }
    assert rows == orig.grid;
    copy := Image(orig.width, orig.height, rows);
  }

  /** `set(row, col, p)`: overwrites one pixel. The C++ code does no
      bounds check, so the indices must lie in the grid. */
  function Set(img: Image, row: int, col: int, p: Pixel): (r: Image)
    requires Valid(img)
    requires 0 <= row < img.height && 0 <= col < img.width
    ensures Valid(r) && r.width == img.width && r.height == img.height
    ensures Get(r, row, col) == p
    ensures forall i, j :: 0 <= i < img.height && 0 <= j < img.width && (i, j) != (row, col) ==>
              Get(r, i, j) == Get(img, i, j)
  {
    img.(grid := img.grid[row := img.grid[row][col := p]])
  }

  /** Setting a pixel to the value it already has changes nothing. */
  lemma SetGet(img: Image, row: int, col: int)
    requires Valid(img)
    requires 0 <= row < img.height && 0 <= col < img.width
    ensures Set(img, row, col, Get(img, row, col)) == img
  {
    assert img.grid[row][col := img.grid[row][col]] == img.grid[row];
    assert img.grid[row := img.grid[row]] == img.grid;
  }
}
