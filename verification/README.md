# ppm_image pixel grid, modelled in Dafny

This project models the pixel grid of `agl::ppm_image` from the pixmap-ops
library. A `ppm_image` holds `hei` rows of `wid` RGB pixels, each channel an
unsigned byte. The model covers:
- construction, which fills the grid with white;
- the deep copy made by the copy constructor;
- `get`, `set`, `width` and `height`;
- the transformations that are pure integer index arithmetic: `invert`,
  `flip_horizontal`, nearest-neighbour `resize` and the row coverage of
  `grayscale`;
- the token stream `save` writes, and the token stream `load` reads back.

The image is an immutable value `Image(width, height, grid)` where
`grid: seq<seq<Pixel>>` is row-major. `Valid` is the class invariant: exactly
`height` rows of exactly `width` pixels. The dimensions are kept apart from
the grid because the written `resize` breaks that invariant. Copies are
values, so no copy can share storage with another.

Files:
- `pixels.dfy` (`Pixels`): the `Channel` subtype 0..255, `Pixel`, `White`,
  and the per-pixel steps of `invert` and `grayscale`.
- `image.dfy` (`Images`): `Image`, `Valid`, the constructors, the copy
  constructor, `Get` and `Set`.
- `transforms.dfy` (`Transforms`): `invert`, `flip_horizontal`, `resize` and
  `grayscale`.
- `ppm_format.dfy` (`PpmFormat`): `save` as a token serialiser, and `load`
  on the token level.

Conventions the model fixes:
- C++ `new T[n]` with a negative `n` throws `std::bad_array_new_length`. The
  constructors and `resize` therefore return `Err(BadArrayNewLength)` exactly
  when a negative length is evaluated. With zero rows no row is allocated, so
  an image with a negative width and zero height is valid, as in the code.
- `get`, `set` and the pixel reads of every loop are unchecked in the code.
  Their bounds are preconditions.
- The version tag is the constant "P3". Every constructor sets it, the copy
  constructor included.
- `grayscale`'s luminance is an opaque parameter `luma: Pixel -> Channel`. It
  stands for the float expression the code computes.
- `resize` divides non-negative numbers only, so C++'s truncating `/` and
  Dafny's `/` agree.
- A number stored into a channel is narrowed modulo 256. This is how C++
  converts to an unsigned byte, assuming the channel fields are unsigned
  bytes. `ppm_image.h` is not part of this model.

Choices that follow the code:
- `resize` reads source pixel `(i * height / h, j * width / w)`, the code's
  own index arithmetic.
- The bounds of `get` and `set` are preconditions, because the code does not
  check them.
- A negative length fails only when it is allocated.

Each defect found in the code is modelled twice, as written and corrected
(see Findings).

## Model

| member | source | states |
|---|---|---|
| Images.Get | ppm_image.cpp:307-314 | `get(row, col)` returns `grid[row][col]`; the unchecked indices are a precondition |
| Images.Create | ppm_image.cpp:347-361 | `ppm_image(w, h)` with `create_data` succeeds exactly when the allocations are legal (`h >= 0`, and `w >= 0` unless `h == 0`); then `width()==w`, `height()==h`, the invariant holds and every pixel is white (255,255,255) |
| Images.Empty | ppm_image.cpp:8-15 | the default constructor gives a valid 0×0 image, the same as `ppm_image(0, 0)` |
| Images.Copy | ppm_image.cpp:26-44 | the copy constructor's nested loops produce an image equal to the original: same dimensions, same pixel at every position |
| Images.Set | ppm_image.cpp:316-322 | after `set(r, c, p)`, `get(r, c)` is `p`, every other pixel is unchanged and the dimensions are kept |
| Images.SetGet | ppm_image.cpp:307-322 | setting a pixel to what `get` returns for it leaves the image unchanged |
| Transforms.Invert | ppm_image.cpp:364-378 | `invert` keeps the dimensions, and each channel `c` becomes `255 - c` |
| Transforms.InvertInvolution | ppm_image.cpp:364-378 | inverting twice gives back the original image |
| Transforms.Flipped | ppm_image.cpp:186-199 | the intended flip keeps the dimensions, and `result[i][j] == orig[H-1-i][j]` for every `i` and `j` |
| Transforms.FlipHorizontal | ppm_image.cpp:189-198 | swapping `(i, j)` with `(H-1-i, j)` for every `i < H/2` and every `j` produces exactly the mirrored image |
| Transforms.FlippedInvolution | ppm_image.cpp:187-199 | flipping twice gives back the original image |
| Transforms.FlippedMiddleRow | ppm_image.cpp:191-195 | when `H` is odd, the middle row `H/2` is unchanged |
| Transforms.SourceIndexInBounds | ppm_image.cpp:180 | for `0 <= i < h` and a non-empty source, `i*H/h` lies in `[0, H)`, so `resize` never reads outside the image |
| Transforms.SourceIndicesInBounds | ppm_image.cpp:176-182 | the in-bounds guarantee holds for every output row or column at once |
| Transforms.SourceIndexSameSize | ppm_image.cpp:180 | at the source's own size the index arithmetic maps every `i` to itself |
| Transforms.NearestGrid | ppm_image.cpp:165-182 | the new data has `h` rows of `w` pixels, and pixel `(i, j)` is source pixel `(i*H/h, j*W/w)`, an in-bounds index |
| Transforms.ResizeAsWritten | ppm_image.cpp:159-184 | the written `resize` fails exactly on an illegal allocation; otherwise its data has `h` rows of `w` pixels, but `width()`/`height()` still report the source's dimensions |
| Transforms.Resize | ppm_image.cpp:159-184 | the corrected `resize` is a valid `w`×`h` image whose pixel `(i, j)` is source pixel `(i*H/h, j*W/w)`, with both source indices in range |
| Transforms.ResizeAsWrittenSamePixels | ppm_image.cpp:161-163 | the written and the corrected resize have the same pixels; they differ only in the reported dimensions |
| Transforms.ResizeAsWrittenBreaksInvariant | ppm_image.cpp:161-163 | the object `resize` builds for a 1×1 image resized to 2×2 reports 1×1 and holds 2 rows: the class invariant is broken; the corrected result is valid |
| Transforms.ResizeSameSize | ppm_image.cpp:176-182 | resizing to the image's own size reproduces the image |
| Transforms.ResizeAsWrittenSameSize | ppm_image.cpp:159-184 | at the image's own size the written resize also reproduces the image, header included |
| Transforms.GrayscaleAsWritten | ppm_image.cpp:293-301 | only rows `i < H/2` are rewritten, and in those rows every pixel has `r == g == b == luma(original)`; rows `i >= H/2` are identical to the input |
| Transforms.Grayscale | ppm_image.cpp:284-304 | the corrected `grayscale` makes every pixel of every row gray with the luminance of the original pixel |
| Transforms.GrayscaleAsWrittenUpperHalf | ppm_image.cpp:293-301 | the written loop agrees with the full conversion on rows `i < H/2` and leaves the other rows untouched |
| Transforms.GrayscaleAsWrittenSkipsSingleRow | ppm_image.cpp:293 | a one-row image comes back unchanged, because `1/2 == 0` |
| Transforms.GrayscaleAsWrittenMissesLowerRow | ppm_image.cpp:293-301 | in a 1×2 image, a pure red lower pixel stays non-gray whatever the luminance; the corrected version makes it gray |
| PpmFormat.RowTokens | ppm_image.cpp:144-149 | one row gives three tokens per pixel, each a number in [0,255] because of the `(int)` cast of a byte |
| PpmFormat.GridTokens | ppm_image.cpp:142-150 | all rows give `3*W*H` channel tokens, each a number in [0,255] |
| PpmFormat.Save | ppm_image.cpp:137-150 | `save` emits `version, wid, hei, 255`, then `3*W*H` channel numbers in [0,255]; the total length is `4 + 3*W*H` |
| PpmFormat.RowTokensAt | ppm_image.cpp:144-149 | pixel `j` of a row is written as tokens `3j`, `3j+1` and `3j+2`, red first |
| PpmFormat.GridTokensAt | ppm_image.cpp:142-150 | pixel `(i, j)` is written at tokens `3*(i*W+j)` to `3*(i*W+j)+2`, in row-major order |
| PpmFormat.SavePixelAt | ppm_image.cpp:137-150 | in the file, the red, green and blue channels of pixel `(i, j)` are tokens `4 + 3*(i*W+j)`, `+1` and `+2` |
| PpmFormat.ChannelOf | ppm_image.cpp:78-83 | a number stored into a channel keeps its value when it is already in [0,255] |
| PpmFormat.ReadRowTokens | ppm_image.cpp:76-85 | the inner `load` loop, reading three tokens per pixel, gives back exactly the row that the inner `save` loop wrote |
| PpmFormat.ReadGrid | ppm_image.cpp:74-86 | the outer `load` loop reads `h` rows of `w` pixels |
| PpmFormat.ReadGridAt | ppm_image.cpp:74-86 | the pixel `load` stores at `(i, j)` is made of the three tokens at `start + 3*(i*w+j)` |
| PpmFormat.ReadImage | ppm_image.cpp:67-86 | a read image is valid, and its dimensions are the width and height tokens |
| PpmFormat.LoadAsWritten | ppm_image.cpp:58-92 | the written `load` is valid when it succeeds, and pixel (0,0)'s red channel comes from token 3, which is the maximum-value field |
| PpmFormat.Load | ppm_image.cpp:58-92 | the corrected `load` skips the maximum-value field: pixel (0,0)'s red channel comes from token 4 |
| PpmFormat.LoadSave | ppm_image.cpp:58-156 | loading what `save` wrote gives back the same image, for every valid image |
| PpmFormat.SaveCanonical | ppm_image.cpp:131-156 | everything `save` writes is in the canonical layout: version, allocatable width and height, 255, then exactly `3*W*H` channel numbers |
| PpmFormat.SaveLoad | pixmap_art.cpp:10-11 | a file in the canonical layout loads successfully, and saving the loaded image gives back that file, which is what the demo expects ("should match original") |
| PpmFormat.LoadAsWrittenMisreadsSave | ppm_image.cpp:67-79 | a black 1×1 image saved and then loaded as written comes back as (255,0,0); the corrected load gives back black |

## Findings

| source | as written | input that shows it | evidently intended | confidence | as-written member | corrected member |
|---|---|---|---|---|---|---|
| ppm_image.cpp:161-163 | `resize` copies the receiver and replaces only `data`, so `width()`/`height()` report the old size | for a 1×1 image resized to 2×2, the object `resize` builds reports 1×1 and holds 2 rows | the result reports `w`×`h` | high (not executed) | Transforms.ResizeAsWritten, Transforms.ResizeAsWrittenBreaksInvariant | Transforms.Resize |
| ppm_image.cpp:293 | the `grayscale` row loop stops at `height()/2` | a 1-wide, 2-tall image with a (255,0,0) lower pixel keeps that pixel red | every row is converted | high (not executed) | Transforms.GrayscaleAsWritten, Transforms.GrayscaleAsWrittenMissesLowerRow | Transforms.Grayscale |
| ppm_image.cpp:69 | `load` skips one character after the height, so the maximum value 255 is read as pixel (0,0)'s red channel and every later channel shifts by one | a black 1×1 image saved and loaded comes back as (255,0,0) | skip the maximum-value field, so that `load` inverts `save` | high (not executed) | PpmFormat.LoadAsWritten, PpmFormat.LoadAsWrittenMisreadsSave | PpmFormat.Load, PpmFormat.LoadSave, PpmFormat.SaveLoad |

## Left out

- `subimage` and `replace` (ppm_image.cpp:202-245): their counters shift `startx`/`starty` without ever resetting them between rows. `subimage` also reallocates the row table on every iteration, and `replace` never clamps. The code defines no coherent behaviour to state.
- `alpha_blend` and `gammaCorrect` (ppm_image.cpp:251-282): float arithmetic and `pow` with a truncating conversion back to a byte, which integers cannot reproduce.
- Grayscale's luminance `0.3f*r + 0.6f*g + 0.1f*b` (ppm_image.cpp:288-297) is float arithmetic. It is an opaque parameter of the model.
- `read` (ppm_image.cpp:94-127): it tests the member function `load` as a value and has no return on its other path.
- The destructor and all manual `new`/`delete` (ppm_image.cpp:47-54), including the leak of the copy's buffer in `resize`: ownership plumbing with no value-level meaning.
- File handling in `save` and `load`: opening the stream, the success boolean and whitespace layout. Only the token sequence is modelled.
- PpmFormat.LoadAsWritten: short or non-numeric input yields `None`. The code reports success instead. On short input `input >> value` reaches the end of the stream, assigns nothing, and the remaining channels repeat the last value read. After a non-numeric token it stores 0 once, and later channels keep that 0. A negative height, or a negative width with rows, also yields `None`, whereas `create_data` at ppm_image.cpp:71 throws `bad_array_new_length` out of `load`.
- PpmFormat.LoadAsWritten: number tokens are unbounded integers, and a channel is narrowed modulo 256. The code extracts each number into an `int` (the width and height at ppm_image.cpp:67-68, the channels at :78-83). A number outside `int`'s range stores `INT_MAX` or `INT_MIN` and sets the fail bit, after which no later extraction assigns anything. For example `P3 1 1 4294967296 0 0` loads as (0,0,0) in the model but as (255,255,255) in the code.
- PpmFormat.LoadAsWritten: the version tag is not read back. It goes through an unterminated `char[3]` (ppm_image.cpp:63-66), and the model keeps the version constant.
- PpmFormat.LoadAsWritten: models only the token level. The code reads the version with `read(ver, 2)` and skips one character with `read(ver, 1)` (ppm_image.cpp:65,69). The model treats the version as one whole token. A first token longer than two characters therefore shifts the code's parse but not the model's: for `P33 2 2` the code reads width 3 and the model reads width 2. `PpmFormat.Load` shares this abstraction.
- Transforms.Resize: the products `i*height()` and `j*width()` are unbounded integers. The code's 32-bit `int` would overflow for very large sizes.
- Transforms.ResizeAsWritten: the products `i*height()` and `j*width()` are unbounded integers, as in `Resize`.
- Transforms.ResizeAsWritten: models the object `resize` builds at ppm_image.cpp:161-182 and assumes the copy at the return (ppm_image.cpp:183) is elided. The class has no move constructor. Without elision the copy constructor would copy only `height()`×`width()` pixels of the old size: a grow would yield a valid image of the old size, and a shrink would read past the new row table.
- The demo driver pixmap_art.cpp, and `lightest`, `darkest`, `difference`, `multiply` and `swirl`: the driver only sequences calls, and the definitions of those five operations are not part of this model.
