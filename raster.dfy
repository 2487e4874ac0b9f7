/**
 * RGBA rasters and Go's draw.Draw with the Src operator.  A raster is a
 * two-dimensional array indexed [x, y] whose bounds start at the origin.
 */
module Raster {
  import opened Geometry

  newtype Byte = x: int | 0 <= x < 256

  datatype Pixel = Pixel(r: Byte, g: Byte, b: Byte, a: Byte)

  /** The zero colour that image.NewRGBA fills a new buffer with */
  const Transparent: Pixel := Pixel(0, 0, 0, 0)

  /** The bounds of a raster: at the origin, as wide and high as the array */
  function BoundsOf(img: array2<Pixel>): (r: Rectangle)
    ensures r.min == Origin && r.Canonical()
    ensures forall p :: r.Contains(p) <==> 0 <= p.x < img.Length0 && 0 <= p.y < img.Length1
  {
    Rectangle(Origin, Point(img.Length0, img.Length1))
  }

  /** RGBA.At: the colour at (x, y), and the zero colour outside the bounds */
  function At(img: array2<Pixel>, x: int, y: int): Pixel
    reads img
  {
    if 0 <= x < img.Length0 && 0 <= y < img.Length1 then img[x, y] else Transparent
  }

  /** image.NewRGBA(r) for a rectangle at the origin: a fresh buffer of zero colour */
  method NewRGBA(r: Rectangle) returns (img: array2<Pixel>)
    requires r.min == Origin && r.Canonical()
    ensures fresh(img)
    ensures BoundsOf(img) == r
    ensures forall x, y :: 0 <= x < img.Length0 && 0 <= y < img.Length1 ==> img[x, y] == Transparent
  {
    img := new Pixel[r.Dx(), r.Dy()]((x, y) => Transparent);
  }

  /**
   * Whether draw.Draw(dst, r, src, sp, draw.Src) writes the destination
   * point (x, y): the point lies in r, and the source point it is copied
   * from, sp + ((x, y) - r.Min), lies in the source bounds.  (Points outside
   * the destination are never written either.)
   */
  predicate Drawn(r: Rectangle, srcWidth: int, srcHeight: int, sp: Point, x: int, y: int) {
    r.Contains(Point(x, y)) &&
    0 <= x - r.min.x + sp.x < srcWidth &&
    0 <= y - r.min.y + sp.y < srcHeight
  }

  /**
   * draw.Draw(dst, r, src, sp, draw.Src): every destination point that
   * Drawn admits takes the source pixel it is aligned with; every other
   * destination pixel keeps its colour.
   */
  method DrawSrc(dst: array2<Pixel>, r: Rectangle, src: array2<Pixel>, sp: Point)
    requires dst != src
    modifies dst
    ensures forall x, y :: 0 <= x < dst.Length0 && 0 <= y < dst.Length1 ==>
      dst[x, y] == if Drawn(r, src.Length0, src.Length1, sp, x, y)
                   then src[x - r.min.x + sp.x, y - r.min.y + sp.y]
                   else old(dst[x, y])
  {
    var x := 0;
    while x < dst.Length0
      invariant 0 <= x <= dst.Length0
      invariant forall a, b :: 0 <= a < dst.Length0 && 0 <= b < dst.Length1 ==>
        dst[a, b] == if a < x && Drawn(r, src.Length0, src.Length1, sp, a, b)
                     then src[a - r.min.x + sp.x, b - r.min.y + sp.y]
                     else old(dst[a, b])
    {
      var y := 0;
      while y < dst.Length1
        invariant 0 <= y <= dst.Length1
        invariant forall a, b :: 0 <= a < dst.Length0 && 0 <= b < dst.Length1 ==>
          dst[a, b] == if (a < x || (a == x && b < y)) && Drawn(r, src.Length0, src.Length1, sp, a, b)
                       then src[a - r.min.x + sp.x, b - r.min.y + sp.y]
                       else old(dst[a, b])
      {
        if Drawn(r, src.Length0, src.Length1, sp, x, y) {
          dst[x, y] := src[x - r.min.x + sp.x, y - r.min.y + sp.y];
        }
        y := y + 1;
      }
      x := x + 1;
    }
  }
}
