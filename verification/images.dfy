/** An RGBA raster whose bounds start at (0, 0), and its pixels in row-major order. */
module Images {
  import opened Colors

  /** `rows[y][x]` is the pixel at column x of row y. */
  datatype Raster = Raster(width: nat, height: nat, rows: seq<seq<RGBA>>) {

    /** Every row exists and has exactly `width` pixels. */
    predicate Valid() {
      |rows| == height && forall y :: 0 <= y < |rows| ==> |rows[y]| == width
    }
  }

  /** A rectangular raster, as produced by the decoders (Go's `*image.RGBA`). */
  type Image = r: Raster | r.Valid() witness Raster(0, 0, [])

  /** The pixel at (x, y), as `RGBAAt(x, y)`. */
  function At(img: Image, x: nat, y: nat): RGBA
    requires x < img.width && y < img.height
  {
    img.rows[y][x]
  }

  /** Rows concatenated in order: the visiting order of the loops `for y { for x { … } }`. */
  function Flatten(rows: seq<seq<RGBA>>): seq<RGBA>
  {
    if rows == [] then [] else Flatten(rows[..|rows| - 1]) + rows[|rows| - 1]
  }

  /** Every pixel of the image, y outer and x inner, both ascending. */
  function Pixels(img: Image): seq<RGBA>
  {
    Flatten(img.rows)
  }

  /** The number of pixels of `img` whose exact RGBA value is `c`. */
  function CountOf(img: Image, c: RGBA): nat
  {
    multiset(Pixels(img))[c]
  }

  /** The image has no pixel at all. */
  predicate IsEmpty(img: Image)
  {
    img.width == 0 || img.height == 0
  }

  /** Every pixel of the image is `c`. */
  predicate Uniform(img: Image, c: RGBA)
  {
    forall x: nat, y: nat :: x < img.width && y < img.height ==> At(img, x, y) == c
  }

  lemma {:induction false} FlattenLength(rows: seq<seq<RGBA>>, width: nat)
    requires forall y :: 0 <= y < |rows| ==> |rows[y]| == width
    ensures |Flatten(rows)| == |rows| * width
  {
    if rows != [] {
      var n := |rows| - 1;
      FlattenLength(rows[..n], width);
      assert |Flatten(rows)| == n * width + width;
    }
  }

  lemma {:induction false} FlattenIndex(rows: seq<seq<RGBA>>, width: nat, y: nat, x: nat)
    requires forall k :: 0 <= k < |rows| ==> |rows[k]| == width
    requires y < |rows| && x < width
    ensures y * width + x < |Flatten(rows)|
    ensures Flatten(rows)[y * width + x] == rows[y][x]
  {
    var n := |rows| - 1;
    FlattenLength(rows[..n], width);
    FlattenLength(rows, width);
    if y < n {
      FlattenIndex(rows[..n], width, y, x);
      assert y * width + x < n * width by {
        assert (y + 1) * width <= n * width by { MulMono(y + 1, n, width); }
      }
    } else {
      assert y * width == |Flatten(rows[..n])|;
    }
  }

  lemma MulMono(a: nat, b: nat, w: nat)
    requires a <= b
    ensures a * w <= b * w
  {
  }

  /** The pixel sequence has one entry per grid position. */
  lemma PixelsLength(img: Image)
    ensures |Pixels(img)| == img.width * img.height
  {
    FlattenLength(img.rows, img.width);
  }

  /** Grid position (x, y) is visited as the (y·width + x)-th pixel. */
  lemma PixelsRowMajor(img: Image, x: nat, y: nat)
    requires x < img.width && y < img.height
    ensures y * img.width + x < |Pixels(img)|
    ensures Pixels(img)[y * img.width + x] == At(img, x, y)
  {
    FlattenIndex(img.rows, img.width, y, x);
  }

  lemma {:induction false} FlattenMember(rows: seq<seq<RGBA>>, c: RGBA)
    ensures c in Flatten(rows) <==> exists y, x :: 0 <= y < |rows| && 0 <= x < |rows[y]| && rows[y][x] == c
  {
    if rows != [] {
      var n := |rows| - 1;
      FlattenMember(rows[..n], c);
      assert Flatten(rows) == Flatten(rows[..n]) + rows[n];
      if c in Flatten(rows) {
        if c in rows[n] {
          var x :| 0 <= x < |rows[n]| && rows[n][x] == c;
          assert rows[n][x] == c;
        } else {
          assert c in Flatten(rows[..n]);
          var y, x :| 0 <= y < n && 0 <= x < |rows[..n][y]| && rows[..n][y][x] == c;
          assert rows[y][x] == c;
        }
      } else {
        forall y, x | 0 <= y < |rows| && 0 <= x < |rows[y]|
          ensures rows[y][x] != c
        {
          if y < n {
            assert rows[..n][y][x] == rows[y][x];
          } else {
            assert rows[y][x] in rows[n];
          }
        }
      }
    }
  }

  /** A colour is among the pixels exactly when some grid position holds it. */
  lemma PixelsMember(img: Image, c: RGBA)
    ensures c in Pixels(img) <==> exists x: nat, y: nat :: x < img.width && y < img.height && At(img, x, y) == c
  {
    FlattenMember(img.rows, c);
    if c in Pixels(img) {
      var y, x :| 0 <= y < |img.rows| && 0 <= x < |img.rows[y]| && img.rows[y][x] == c;
      assert At(img, x, y) == c;
    }
  }

  /** In a uniform image every pixel is counted for the one colour. */
  lemma UniformCount(img: Image, c: RGBA)
    requires Uniform(img, c)
    ensures CountOf(img, c) == img.width * img.height
    ensures forall d :: d != c ==> d !in Pixels(img)
  {
    PixelsLength(img);
    var px := Pixels(img);
    forall d | d != c
      ensures d !in px
    {
      PixelsMember(img, d);
    }
    forall i | 0 <= i < |px|
      ensures px[i] == c
    {
      assert px[i] in px;
    }
    AllSameCount(px, c);
  }

  lemma {:induction false} AllSameCount(s: seq<RGBA>, c: RGBA)
    requires forall i :: 0 <= i < |s| ==> s[i] == c
    ensures multiset(s)[c] == |s|
  {
    if s != [] {
      var n := |s| - 1;
      assert s == s[..n] + [s[n]];
      AllSameCount(s[..n], c);
    }
  }
}
