/** Page images as the two entry points handle them. An image is its size
    and where it came from (a rendered page, a crop, a resize); pixel data
    is not modelled. `Crop` and `Resize` stand for PIL's `Image.crop` and
    `Image.resize`, kept only for the size of what they return. */
module Imaging {
  /** A PIL crop box: columns [left, right) and rows [upper, lower). */
  datatype Box = Box(left: int, upper: int, right: int, lower: int)

  datatype Origin =
    | Rendered(page: int)
    | CroppedFrom(source: Image, box: Box)
    | ResizedFrom(source: Image)

  datatype Image = Image(width: nat, height: nat, origin: Origin)

  /** `image.crop(box)`: an image the size of the box. */
  function Crop(img: Image, box: Box): (part: Image)
    requires box.left <= box.right && box.upper <= box.lower
    ensures part.width == box.right - box.left && part.height == box.lower - box.upper
  {
    Image(box.right - box.left, box.lower - box.upper, CroppedFrom(img, box))
  }

  /** `image.resize((width, height))`: an image of the requested size. */
  function Resize(img: Image, width: nat, height: nat): (r: Image)
    ensures r.width == width && r.height == height
  {
    Image(width, height, ResizedFrom(img))
  }

  /** `height // 4`, the height of each of the four bands. */
  function BandHeight(height: nat): nat {
    height / 4
  }

  /** The crop box of band `i`: full width, rows [h*i, h*(i+1)). */
  function BandBox(width: nat, height: nat, i: nat): Box {
    var h := BandHeight(height);
    Box(0, h * i, width, h * (i + 1))
  }

  /** Band `i` of an image, cropped at full width. */
  function Band(img: Image, i: nat): Image {
    var b := BandBox(img.width, img.height, i);
    assert b.upper <= b.lower by {
      assert b.lower == b.upper + BandHeight(img.height);
    }
    Crop(img, b)
  }

  /** `divide_image` of the Streamlit page (a list comprehension): the four
      horizontal bands, each as wide as the image and a quarter of its
      height (rounded down). */
  function DivideImage(img: Image): (parts: seq<Image>)
    ensures |parts| == 4
    ensures forall i :: 0 <= i < 4 ==>
      parts[i].width == img.width && parts[i].height == img.height / 4 &&
      parts[i].origin == CroppedFrom(img, BandBox(img.width, img.height, i))
  {
    [Band(img, 0), Band(img, 1), Band(img, 2), Band(img, 3)]
  }

  /** What `divide_and_resize_image` returns: each band stretched to the
      requested size. */
  function DividedAndResized(img: Image, width: nat, height: nat): (parts: seq<Image>)
    ensures |parts| == 4
  {
    seq(4, i requires 0 <= i < 4 => Resize(Band(img, i), width, height))
  }

  // ---------------------------------------------------------------------------
  // Properties of the bands

  /** The four boxes tile the top of the image: they span the full width,
      the first starts at row 0, each starts where the previous one ends, the
      last ends inside the image, and the rows below it — `height % 4` of
      them, so at most three — are dropped. */
  lemma BandsTile(width: nat, height: nat)
    ensures forall i :: 0 <= i < 4 ==>
      var b := BandBox(width, height, i);
      b.left == 0 && b.right == width && 0 <= b.upper <= b.lower <= height &&
      b.lower - b.upper == height / 4
    ensures BandBox(width, height, 0).upper == 0
    ensures forall i :: 0 <= i < 3 ==> BandBox(width, height, i).lower == BandBox(width, height, i + 1).upper
    ensures height - BandBox(width, height, 3).lower == height % 4 < 4
  {
    var h := BandHeight(height);
    assert 4 * h + height % 4 == height;
    forall i | 0 <= i < 4
      ensures var b := BandBox(width, height, i);
        0 <= b.upper <= b.lower <= height && b.lower - b.upper == h
    {
      assert h * (i + 1) == h * i + h;
      assert h * (i + 1) <= h * 4 by {
        MulMonotone(h, i + 1, 4);
      }
    }
  }

  /** Multiplying by a natural number keeps order. */
  lemma MulMonotone(h: nat, a: nat, b: nat)
    requires a <= b
    ensures h * a <= h * b
  {
    assert h * b == h * a + h * (b - a);
  }

  /** A positive factor can be cancelled from a strict inequality. */
  lemma MulCancel(h: nat, a: nat, b: nat)
    requires h > 0 && h * a < h * b
    ensures a < b
  {
    if b <= a {
      MulMonotone(h, b, a);
    }
  }

  /** With bands of positive height `h`, a row lies in band `i` exactly when
      `i` is the row divided by `h`. */
  lemma BandOfRow(h: nat, row: int, i: nat)
    requires h > 0 && 0 <= row
    ensures h * i <= row < h * i + h <==> i == row / h
  {
    var q := row / h;
    assert row == h * q + row % h;
    assert h * q <= row < h * q + h;
    assert h * (q + 1) == h * q + h && h * (i + 1) == h * i + h;
    if h * i <= row < h * i + h {
      MulCancel(h, i, q + 1);
      MulCancel(h, q, i + 1);
    }
  }

  /** A row lies in band `i` exactly when it is above the dropped rows and
      `i` is its row divided by the band height; so every row above the
      dropped ones lies in exactly one band, and the dropped rows in none. */
  lemma RowInBand(width: nat, height: nat, row: int, i: nat)
    requires 0 <= row < height && i < 4
    ensures BandBox(width, height, i).upper <= row < BandBox(width, height, i).lower <==>
      row < 4 * BandHeight(height) && i == row / BandHeight(height)
  {
    var h := BandHeight(height);
    var b := BandBox(width, height, i);
    assert b.upper == h * i && b.lower == h * i + h;
    if h > 0 {
      BandOfRow(h, row, i);
      MulMonotone(h, i + 1, 4);
      BandOfRow(h, row, row / h);
      assert row < 4 * h ==> row / h < 4 by {
        if row < 4 * h && row / h >= 4 {
          MulMonotone(h, 4, row / h);
        }
      }
    }
  }

  /** Two different bands share no row. */
  lemma BandsDisjoint(width: nat, height: nat, i: nat, j: nat, row: int)
    requires i < 4 && j < 4 && i != j
    requires BandBox(width, height, i).upper <= row < BandBox(width, height, i).lower
    ensures !(BandBox(width, height, j).upper <= row < BandBox(width, height, j).lower)
  {
    BandsTile(width, height);
    RowInBand(width, height, row, i);
    RowInBand(width, height, row, j);
  }

  /** Every part `divide_and_resize_image` returns has the requested size,
      and part `i` is band `i` of the page, resized. */
  lemma DividedAndResizedParts(img: Image, width: nat, height: nat)
    ensures forall i :: 0 <= i < 4 ==>
      var part := DividedAndResized(img, width, height)[i];
      part.width == width && part.height == height &&
      part.origin == ResizedFrom(DivideImage(img)[i])
  {
  }

  /** Resizing the page before dividing it (the Streamlit page `Hello`) gives
      parts of the requested width and a quarter of the requested height,
      rounded down, unlike `divide_and_resize_image`, whose parts have the
      full requested size. */
  lemma ResizeThenDivideParts(img: Image, width: nat, height: nat)
    ensures forall part <- DivideImage(Resize(img, width, height)) ::
      part.width == width && part.height == height / 4
  {
  }
}
