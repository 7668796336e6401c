/**
 The plain-text pixel format `save` writes: the version tag, the width, the
 height and the maximum channel value 255, then three channel numbers per
 pixel in row-major order. The format is modelled as the sequence of
 whitespace-separated tokens in the file; line breaks and spaces carry no
 meaning.

 `load` is modelled at the same token level: as written it reads the
 version, width and height and then takes pixel data from the very next
 token, which is the maximum value.
 */
module PpmFormat {
  import opened Pixels
  import opened Images

  datatype Token = Word(text: string) | Number(value: int)

  /** The outcome of `load`; `None` when the input does not describe an image. */
  datatype Option<T> = None | Some(value: T)

  /** Every constructor of `ppm_image` sets the version to "P3". */
  const Version: string := "P3"

  /** The tokens before the pixel data. */
  function Header(img: Image): seq<Token> {
    [Word(Version), Number(img.width), Number(img.height), Number(MaxChannel)]
  }

  /** The three channel numbers of one pixel, red first. */
  function PixelTokens(p: Pixel): seq<Token> {
    [Number(p.r), Number(p.g), Number(p.b)]
  }

  /** A number token that an unsigned byte can have produced. */
  predicate IsChannelToken(t: Token) {
    t.Number? && 0 <= t.value <= MaxChannel
  }

  /** The inner loop of `save`: one row, left to right. */
  function RowTokens(row: seq<Pixel>): (ts: seq<Token>)
    ensures |ts| == 3 * |row|
    ensures forall k :: 0 <= k < |ts| ==> IsChannelToken(ts[k])
  {
    if row == [] then [] else PixelTokens(row[0]) + RowTokens(row[1..])
  }

  /** The outer loop of `save`: every row, top to bottom. */
  function GridTokens(grid: seq<seq<Pixel>>, w: int): (ts: seq<Token>)
    requires Shaped(grid, w, |grid|)
    ensures |ts| == 3 * w * |grid|
    ensures forall k :: 0 <= k < |ts| ==> IsChannelToken(ts[k])
  {
    if grid == [] then []
    else
      var rest := GridTokens(grid[1..], w);
      assert 3 * w * |grid| == 3 * w + 3 * w * (|grid| - 1);
      RowTokens(grid[0]) + rest
  }

  /** `save` as a serialiser: the header, then every pixel's channels. */
  function Save(img: Image): (ts: seq<Token>)
    requires Valid(img)
    ensures |ts| == 4 + 3 * img.width * img.height
    ensures |ts| >= 4 && ts[..4] == Header(img)
    ensures forall k :: 4 <= k < |ts| ==> IsChannelToken(ts[k])
  {
    Header(img) + GridTokens(img.grid, img.width)
  }

  /** Pixel `j` of a row starts at token `3 * j` of that row's tokens. */
  lemma {:induction false} RowTokensAt(row: seq<Pixel>, j: int)
    requires 0 <= j < |row|
    ensures RowTokens(row)[3 * j .. 3 * j + 3] == PixelTokens(row[j])
  {
    if j > 0 {
      RowTokensAt(row[1..], j - 1);
      assert RowTokens(row) == PixelTokens(row[0]) + RowTokens(row[1..]);
      assert RowTokens(row)[3 * j .. 3 * j + 3] == RowTokens(row[1..])[3 * (j - 1) .. 3 * (j - 1) + 3];
    }
  }

  /** Pixel `(i, j)` of a grid `w` pixels wide starts at token `3 * (i * w + j)`. */
  lemma {:induction false} GridTokensAt(grid: seq<seq<Pixel>>, w: int, i: int, j: int)
    requires Shaped(grid, w, |grid|)
    requires 0 <= i < |grid| && 0 <= j < w
    ensures 0 <= 3 * (i * w + j) && 3 * (i * w + j) + 3 <= |GridTokens(grid, w)|
    ensures GridTokens(grid, w)[3 * (i * w + j) .. 3 * (i * w + j) + 3] == PixelTokens(grid[i][j])
  {
    var ts := GridTokens(grid, w);
    assert ts == RowTokens(grid[0]) + GridTokens(grid[1..], w);
    if i == 0 {
      RowTokensAt(grid[0], j);
    } else {
      GridTokensAt(grid[1..], w, i - 1, j);
      assert 3 * (i * w + j) == 3 * w + 3 * ((i - 1) * w + j);
    }
  }

  /** Where `save` puts each channel of pixel `(i, j)`: red at
      `4 + 3 * (i * width + j)`, then green, then blue. */
  lemma SavePixelAt(img: Image, i: int, j: int)
    requires Valid(img)
    requires 0 <= i < img.height && 0 <= j < img.width
    ensures 4 + 3 * (i * img.width + j) + 2 < |Save(img)|
    ensures Save(img)[4 + 3 * (i * img.width + j)] == Number(Get(img, i, j).r)
    ensures Save(img)[4 + 3 * (i * img.width + j) + 1] == Number(Get(img, i, j).g)
    ensures Save(img)[4 + 3 * (i * img.width + j) + 2] == Number(Get(img, i, j).b)
  {
    var k := 3 * (i * img.width + j);
    var p := img.grid[i][j];
    GridTokensAt(img.grid, img.width, i, j);
    var ts, g := Save(img), GridTokens(img.grid, img.width);
    assert ts == Header(img) + g;
    assert g[k .. k + 3] == PixelTokens(p);
    assert g[k] == Number(p.r) && g[k + 1] == Number(p.g) && g[k + 2] == Number(p.b);
    assert ts[4 + k] == g[k] && ts[4 + k + 1] == g[k + 1] && ts[4 + k + 2] == g[k + 2];
  }

  // ------------------------------------------------------------------ load

  /** The channel a number token becomes when stored into an unsigned byte:
      C++ narrows modulo 256. */
  function ChannelOf(t: Token): (c: Channel)
    requires t.Number?
    ensures IsChannelToken(t) ==> c == t.value
  {
    t.value % 256
  }

  /** The pixel whose three channels start at token `k`. */
  function PixelFrom(ts: seq<Token>, k: int): Pixel
    requires 0 <= k && k + 3 <= |ts|
    requires ts[k].Number? && ts[k + 1].Number? && ts[k + 2].Number?
  {
    Pixel(ChannelOf(ts[k]), ChannelOf(ts[k + 1]), ChannelOf(ts[k + 2]))
  }

  /** The channel tokens from `start` on hold `h` rows of `w` pixels. */
  predicate HasPixelData(ts: seq<Token>, start: nat, w: int, h: int) {
    && w >= 0 && h >= 0
    && start + 3 * w * h <= |ts|
    && forall k :: start <= k < start + 3 * w * h ==> ts[k].Number?
  }

  /** The inner loop of `load`: `w` pixels from the channel tokens at `k`
      on, three tokens per pixel. */
  function ReadRow(ts: seq<Token>, k: int, w: int): (row: seq<Pixel>)
    requires 0 <= k && 0 <= w && k + 3 * w <= |ts|
    requires forall n :: k <= n < k + 3 * w ==> ts[n].Number?
    ensures |row| == w
    ensures forall j :: 0 <= j < w ==> row[j] == PixelFrom(ts, k + 3 * j)
  {
    seq(w, j requires 0 <= j < w => PixelFrom(ts, k + 3 * j))
  }

  /** The three tokens `save` writes for pixel `j` of a row read back as
      that pixel. */
  lemma PixelFromRowTokens(row: seq<Pixel>, j: int)
    requires 0 <= j < |row|
    ensures 3 * j + 3 <= |RowTokens(row)|
    ensures RowTokens(row)[3 * j].Number? && RowTokens(row)[3 * j + 1].Number? && RowTokens(row)[3 * j + 2].Number?
    ensures PixelFrom(RowTokens(row), 3 * j) == row[j]
  {
    var ts := RowTokens(row);
    RowTokensAt(row, j);
    var three := ts[3 * j .. 3 * j + 3];
    assert three == PixelTokens(row[j]);
    assert ts[3 * j] == three[0] && ts[3 * j + 1] == three[1] && ts[3 * j + 2] == three[2];
  }

  /** Reading back the tokens `save` writes for one row gives the row. */
  lemma ReadRowTokens(row: seq<Pixel>)
    ensures ReadRow(RowTokens(row), 0, |row|) == row
  {
    var ts := RowTokens(row);
    assert forall n :: 0 <= n < |ts| ==> IsChannelToken(ts[n]);
    var back := ReadRow(ts, 0, |row|);
    forall j | 0 <= j < |row|
      ensures back[j] == row[j]
    {
      PixelFromRowTokens(row, j);
    }
  }

  /** The outer loop of `load`: `h` rows, each `3 * w` tokens after the
      previous one. */
  function ReadGrid(ts: seq<Token>, start: nat, w: int, h: int): (grid: seq<seq<Pixel>>)
    requires HasPixelData(ts, start, w, h)
    ensures Shaped(grid, w, h)
    decreases h
  {
    if h == 0 then []
    else
      assert 3 * w * h == 3 * w + 3 * w * (h - 1);
      [ReadRow(ts, start, w)] + ReadGrid(ts, start + 3 * w, w, h - 1)
  }

  /** Pixel data for `h` rows is the first row's tokens followed by pixel
      data for the other `h - 1` rows. */
  lemma HasPixelDataSplit(ts: seq<Token>, start: nat, w: int, h: int)
    requires HasPixelData(ts, start, w, h) && h > 0
    ensures start + 3 * w <= |ts|
    ensures forall n :: start <= n < start + 3 * w ==> ts[n].Number?
    ensures HasPixelData(ts, start + 3 * w, w, h - 1)
  {
    var all, tail := 3 * w * h, 3 * w * (h - 1);
    assert all == 3 * w + tail by {
      assert w * (h - 1) == w * h - w;
    }
    assert 0 <= tail by {
      assert 0 <= w * (h - 1);
    }
  }

  /** Pixel `(i, j)` of the grid `load` reads is made of the three channel
      tokens at `start + 3 * (i * w + j)`. */
  lemma {:induction false} ReadGridAt(ts: seq<Token>, start: nat, w: int, h: int, i: int, j: int)
    requires HasPixelData(ts, start, w, h)
    requires 0 <= i < h && 0 <= j < w
    ensures start + 3 * (i * w + j) + 3 <= |ts|
    ensures ts[start + 3 * (i * w + j)].Number?
    ensures ts[start + 3 * (i * w + j) + 1].Number? && ts[start + 3 * (i * w + j) + 2].Number?
    ensures ReadGrid(ts, start, w, h)[i][j] == PixelFrom(ts, start + 3 * (i * w + j))
    decreases h
  {
    HasPixelDataSplit(ts, start, w, h);
    var first := ReadRow(ts, start, w);
    var rest := ReadGrid(ts, start + 3 * w, w, h - 1);
    assert ReadGrid(ts, start, w, h) == [first] + rest;
    var k := start + 3 * (i * w + j);
    if i == 0 {
      assert k == start + 3 * j;
      assert ReadGrid(ts, start, w, h)[0] == first;
    } else {
      assert k == (start + 3 * w) + 3 * ((i - 1) * w + j) by {
        assert i * w == w + (i - 1) * w;
      }
      ReadGridAt(ts, start + 3 * w, w, h - 1, i - 1, j);
      assert ReadGrid(ts, start, w, h)[i] == rest[i - 1];
    }
  }

  /** The image described by the width and height tokens at positions 1
      and 2 and the channel tokens from position `start` on; `None` when the
      dimensions cannot be allocated or the tokens run out or are not
      numbers. */
  function ReadImage(ts: seq<Token>, start: nat): (r: Option<Image>)
    requires 3 <= start
    ensures r.Some? ==> Valid(r.value) && |ts| >= 3
    ensures r.Some? ==> ts[1] == Number(r.value.width) && ts[2] == Number(r.value.height)
    ensures r.Some? ==> HasPixelData(ts, start, r.value.width, r.value.height) || r.value.height == 0
    ensures r.Some? && r.value.height > 0 ==> r.value.grid == ReadGrid(ts, start, r.value.width, r.value.height)
  {
    if |ts| < 3 || !ts[1].Number? || !ts[2].Number? then None
    else
      var w, h := ts[1].value, ts[2].value;
      if !Allocatable(w, h) then None
      else if h == 0 then Some(Image(w, 0, []))
      else if !HasPixelData(ts, start, w, h) then None
      else Some(Image(w, h, ReadGrid(ts, start, w, h)))
  }

  /** `load` as written, on the token level: after the width and height it
      skips a single character (the line break) and reads the pixels from
      the next token on, which is the maximum value. */
  function LoadAsWritten(ts: seq<Token>): (r: Option<Image>)
    ensures r.Some? ==> Valid(r.value)
    ensures r.Some? && r.value.height > 0 && r.value.width > 0 ==>
              |ts| > 3 && ts[3].Number? && Get(r.value, 0, 0).r == ChannelOf(ts[3])
  {
    ReadImage(ts, 3)
  }

  /** `load` reading past the maximum value, as `save`'s output requires. */
  function Load(ts: seq<Token>): (r: Option<Image>)
    ensures r.Some? ==> Valid(r.value) && |ts| >= 4 && ts[3].Number?
    ensures r.Some? && r.value.height > 0 && r.value.width > 0 ==>
              |ts| > 4 && ts[4].Number? && Get(r.value, 0, 0).r == ChannelOf(ts[4])
  {
    if |ts| < 4 || !ts[3].Number? then None else ReadImage(ts, 4)
  }

  /** Loading what `save` wrote gives back the same image. */
  lemma LoadSave(img: Image)
    requires Valid(img)
    ensures Load(Save(img)) == Some(img)
  {
    var ts := Save(img);
    var w, h := img.width, img.height;
    assert ts[..4] == Header(img);
    assert ts[1] == Number(w) && ts[2] == Number(h) && ts[3] == Number(MaxChannel);
    ValidIsAllocatable(img);
    if h > 0 {
      assert w >= 0 && HasPixelData(ts, 4, w, h);
      var r := Load(ts);
      assert r.Some? && r.value.width == w && r.value.height == h;
      forall i, j | 0 <= i < h && 0 <= j < w
        ensures Get(r.value, i, j) == Get(img, i, j)
      {
        SavePixelAt(img, i, j);
        ReadGridAt(ts, 4, w, h, i, j);
      }
      SamePixels(r.value, img);
    }
  }

  /** A token sequence in the layout `save` writes: the version, a width
      and height that can be allocated, the maximum value 255, and exactly
      three channel numbers per pixel. */
  predicate Canonical(ts: seq<Token>) {
    && |ts| >= 4
    && ts[0] == Word(Version)
    && ts[1].Number? && ts[2].Number?
    && Allocatable(ts[1].value, ts[2].value)
    && ts[3] == Number(MaxChannel)
    && |ts| == 4 + 3 * ts[1].value * ts[2].value
    && forall k :: 4 <= k < |ts| ==> IsChannelToken(ts[k])
  }

  /** Everything `save` writes is in that layout. */
  lemma SaveCanonical(img: Image)
    requires Valid(img)
    ensures Canonical(Save(img))
  {
  }

  /** Channel token `m` of `h` rows of `w` pixels is channel `c` of pixel
      `(i, j)`. */
  lemma ChannelPosition(m: int, w: int, h: int) returns (i: int, j: int, c: int)
    requires 0 <= w && 0 <= m < 3 * w * h
    ensures 0 <= i < h && 0 <= j < w && 0 <= c < 3
    ensures m == 3 * (i * w + j) + c
  {
    var q := m / 3;
    c := m % 3;
    assert q < w * h;
    assert w > 0;
    i, j := q / w, q % w;
    assert q == i * w + j;
    if i >= h {
      MulStrictMono(i, h, w);
      assert false;
    }
  }

  /** Saving what `load` read from a file in `save`'s layout puts back
      channel token `m`. */
  lemma SaveLoadChannel(ts: seq<Token>, m: int)
    requires Canonical(ts) && ts[2].value > 0
    requires 0 <= m < 3 * ts[1].value * ts[2].value
    ensures Load(ts).Some? && 4 + m < |Save(Load(ts).value)|
    ensures Save(Load(ts).value)[4 + m] == ts[4 + m]
  {
    var w, h := ts[1].value, ts[2].value;
    assert HasPixelData(ts, 4, w, h);
    var img := Load(ts).value;
    assert img.grid == ReadGrid(ts, 4, w, h);
    var i, j, c := ChannelPosition(m, w, h);
    var k := 4 + 3 * (i * w + j);
    SavePixelAt(img, i, j);
    ReadGridAt(ts, 4, w, h, i, j);
    var p := Get(img, i, j);
    assert p == PixelFrom(ts, k);
    assert IsChannelToken(ts[k]) && IsChannelToken(ts[k + 1]) && IsChannelToken(ts[k + 2]);
    if c == 0 {
      assert Number(p.r) == ts[k];
    } else if c == 1 {
      assert Number(p.g) == ts[k + 1];
    } else {
      assert Number(p.b) == ts[k + 2];
    }
  }

  /** Saving what `load` read from a file in `save`'s layout gives back
      that file: with `SaveCanonical` and `LoadSave`, `Load` and `Save` are
      inverse bijections between valid images and such files. */
  lemma SaveLoad(ts: seq<Token>)
    requires Canonical(ts)
    ensures Load(ts).Some? && Save(Load(ts).value) == ts
  {
    var w, h := ts[1].value, ts[2].value;
    if h == 0 {
      assert Load(ts) == Some(Image(w, 0, []));
      assert Save(Load(ts).value) == Header(Image(w, 0, []));
    } else {
      assert HasPixelData(ts, 4, w, h);
      var img := Load(ts).value;
      var out := Save(img);
      assert |out| == |ts|;
      forall k | 0 <= k < |ts|
        ensures out[k] == ts[k]
      {
        if k < 4 {
          assert out[..4] == Header(img);
          assert out[k] == out[..4][k];
        } else {
          SaveLoadChannel(ts, k - 4);
        }
      }
    }
  }

  /** Saving a black 1 by 1 image and loading it as written gives a red
      pixel: the maximum value 255 becomes its red channel. */
  lemma LoadAsWrittenMisreadsSave()
    ensures var img := Image(1, 1, [[Pixel(0, 0, 0)]]);
            && LoadAsWritten(Save(img)) == Some(Image(1, 1, [[Pixel(255, 0, 0)]]))
            && Load(Save(img)) == Some(img)
  {
    var img := Image(1, 1, [[Pixel(0, 0, 0)]]);
    assert Valid(img);
    var ts := Save(img);
    assert ts == [Word(Version), Number(1), Number(1), Number(255), Number(0), Number(0), Number(0)];
    var r := LoadAsWritten(ts);
    assert r.Some?;
    SamePixels(r.value, Image(1, 1, [[Pixel(255, 0, 0)]]));
    LoadSave(img);
  }
}
