/**
 The decoded image and the column sampler of the convert command. The image
 is reduced to its size and a colour per (column, row); `Pixels` is the
 enumeration the image crate's `pixels()` performs (row by row, left to
 right within a row), and `Bands` keeps the pixels of one column and turns
 each into a JSON string with a caller-supplied token formatter.
 */
module Raster {
  import opened Bytes
  import opened Json

  /** The four 8-bit channels of one pixel. */
  datatype Rgba = Rgba(r: byte, g: byte, b: byte, a: byte)

  /** A decoded image: `at(x, y)` is the colour in column `x`, row `y`. */
  datatype Image = Image(width: nat, height: nat, at: (nat, nat) -> Rgba)

  /** One item of `pixels()`: column, row and colour. */
  datatype Pixel = Pixel(x: nat, y: nat, color: Rgba)

  /** Pixels of row `y` from column `x` to the right edge. */
  function RowFrom(img: Image, y: nat, x: nat): seq<Pixel>
    decreases img.width - x
  {
    if x >= img.width then []
    else [Pixel(x, y, img.at(x, y))] + RowFrom(img, y, x + 1)
  }

  /** Rows `y`, `y + 1`, ... to the bottom edge, one after the other. */
  function RowsFrom(img: Image, y: nat): seq<Pixel>
    decreases img.height - y
  {
    if y >= img.height then []
    else RowFrom(img, y, 0) + RowsFrom(img, y + 1)
  }

  /** Every pixel of the image in the order `pixels()` yields them. */
  function Pixels(img: Image): seq<Pixel>
  {
    RowsFrom(img, 0)
  }

  /** The pixels of `ps` lying in column `pos`, in their original order
      (the `filter(|p| p.0 == pos)` of the convert loop). */
  function AtColumn(ps: seq<Pixel>, pos: nat): seq<Pixel>
  {
    if |ps| == 0 then []
    else (if ps[0].x == pos then [ps[0]] else []) + AtColumn(ps[1..], pos)
  }

  /** Number of bands a column yields: one per row inside the image, none
      outside it. */
  function BandCount(img: Image, pos: nat): nat
  {
    if pos < img.width then img.height else 0
  }

  /** The new contents of `GasGiant.Colors`: for every pixel of column
      `pos`, top to bottom, the string `tok` renders for its colour. */
  function Bands(img: Image, pos: nat, tok: Rgba -> string): (bands: seq<Json>)
    ensures |bands| == BandCount(img, pos)
    ensures forall y :: 0 <= y < |bands| ==> bands[y] == Str(tok(img.at(pos, y)))
  {
    var col := AtColumn(Pixels(img), pos);
    ColumnOfRows(img, 0, pos);
    seq(|col|, i requires 0 <= i < |col| => Str(tok(col[i].color)))
  }

  /** Where `pixels()` puts column `x` of row `y`. */
  function Offset(width: nat, x: nat, y: nat): nat
  {
    y * width + x
  }

  /** `pixels()` is row-major: one item per pixel, and column `x` of row `y`
      comes at position `y * width + x`. */
  lemma PixelsRowMajor(img: Image)
    ensures |Pixels(img)| == img.width * img.height
    ensures forall y, x :: 0 <= y < img.height && 0 <= x < img.width ==>
      Offset(img.width, x, y) < |Pixels(img)| &&
      Pixels(img)[Offset(img.width, x, y)] == Pixel(x, y, img.at(x, y))
  {
    RowsRowMajor(img, 0);
  }

  lemma {:induction false} RowRowMajor(img: Image, y: nat, x: nat)
    requires x <= img.width
    ensures |RowFrom(img, y, x)| == img.width - x
    ensures forall i :: 0 <= i < |RowFrom(img, y, x)| ==>
      RowFrom(img, y, x)[i] == Pixel(x + i, y, img.at(x + i, y))
    decreases img.width - x
  {
    if x < img.width {
      RowRowMajor(img, y, x + 1);
    }
  }

  lemma {:induction false} RowsRowMajor(img: Image, y: nat)
    requires y <= img.height
    ensures |RowsFrom(img, y)| == img.width * (img.height - y)
    ensures forall dy, x :: 0 <= dy < img.height - y && 0 <= x < img.width ==>
      Offset(img.width, x, dy) < |RowsFrom(img, y)| &&
      RowsFrom(img, y)[Offset(img.width, x, dy)] == Pixel(x, y + dy, img.at(x, y + dy))
    decreases img.height - y
  {
    if y < img.height {
      var w := img.width;
      var row, rest := RowFrom(img, y, 0), RowsFrom(img, y + 1);
      RowRowMajor(img, y, 0);
      RowsRowMajor(img, y + 1);
      assert w * (img.height - y) == w * (img.height - (y + 1)) + w;
      forall dy, x | 0 <= dy < img.height - y && 0 <= x < w
        ensures Offset(w, x, dy) < |RowsFrom(img, y)|
        ensures RowsFrom(img, y)[Offset(w, x, dy)] == Pixel(x, y + dy, img.at(x, y + dy))
      {
        if dy == 0 {
          assert Offset(w, x, dy) == x;
          assert RowsFrom(img, y)[x] == row[x];
        } else {
          assert Offset(w, x, dy) == w + Offset(w, x, dy - 1) by {
            assert dy * w == (dy - 1) * w + w;
          }
          assert RowsFrom(img, y)[Offset(w, x, dy)] == rest[Offset(w, x, dy - 1)];
        }
      }
    }
  }

  /** Filtering distributes over concatenation, so it keeps the order of its input. */
  lemma {:induction false} AtColumnConcat(a: seq<Pixel>, b: seq<Pixel>, pos: nat)
    ensures AtColumn(a + b, pos) == AtColumn(a, pos) + AtColumn(b, pos)
  {
    if |a| != 0 {
      assert (a + b)[0] == a[0];
      assert (a + b)[1..] == a[1..] + b;
      AtColumnConcat(a[1..], b, pos);
    } else {
      assert a + b == b;
    }
  }

  /** A row contributes exactly its pixel in column `pos`, if it has one. */
  lemma {:induction false} ColumnOfRow(img: Image, y: nat, x: nat, pos: nat)
    ensures AtColumn(RowFrom(img, y, x), pos) ==
      (if x <= pos < img.width then [Pixel(pos, y, img.at(pos, y))] else [])
    decreases img.width - x
  {
    if x < img.width {
      var row := RowFrom(img, y, x);
      assert row[1..] == RowFrom(img, y, x + 1);
      ColumnOfRow(img, y, x + 1, pos);
    }
  }

  /** Column `pos` of rows `y` onwards: one pixel per row, top to bottom,
      when the column is inside the image; nothing otherwise. */
  lemma {:induction false} ColumnOfRows(img: Image, y: nat, pos: nat)
    ensures |AtColumn(RowsFrom(img, y), pos)| ==
      (if pos < img.width && y < img.height then img.height - y else 0)
    ensures forall i :: 0 <= i < |AtColumn(RowsFrom(img, y), pos)| ==>
      AtColumn(RowsFrom(img, y), pos)[i] == Pixel(pos, y + i, img.at(pos, y + i))
    decreases img.height - y
  {
    if y < img.height {
      AtColumnConcat(RowFrom(img, y, 0), RowsFrom(img, y + 1), pos);
      ColumnOfRow(img, y, 0, pos);
      ColumnOfRows(img, y + 1, pos);
    }
  }
}
