/**
 * The box of the desktop logo drawn by draw_danbo_mark
 * (kernel/main.cpp:321-331): a 160 x 100 rectangle whose top-left pixel is
 * (x_first, y_first), painted cardboard colour with a one-pixel black
 * border. The glyphs drawn into it afterwards are not part of this model.
 */
module DanboMark {

  import opened KernelTypes

  datatype PixelColor = PixelColor(r: U8, g: U8, b: U8)

  datatype Point = Point(x: int, y: int)

  const LOGO_WIDTH: int := 160
  const LOGO_HEIGHT: int := 100
  const BOX_FILL: PixelColor := PixelColor(240, 210, 150)
  const BOX_BORDER: PixelColor := PixelColor(0, 0, 0)

  /**
   * Stand-in for the PixelWriter: the frame buffer as a map from pixel
   * position to colour. Write replaces one pixel and nothing else.
   */
  class PixelWriter {
    var frame: map<Point, PixelColor>

    method Write(x: int, y: int, c: PixelColor)
      modifies this
      ensures frame == old(frame)[Point(x, y) := c]
    {
      frame := frame[Point(x, y) := c];
    }
  }

  /** `p` lies in the inclusive rectangle x_first..x_last by y_first..y_last. */
  predicate InLogoBox(xFirst: int, yFirst: int, p: Point) {
    xFirst <= p.x <= xFirst + LOGO_WIDTH - 1 && yFirst <= p.y <= yFirst + LOGO_HEIGHT - 1
  }

  /** `p` is on the one-pixel border of the box. */
  predicate OnBorder(xFirst: int, yFirst: int, p: Point) {
    p.y == yFirst || p.y == yFirst + LOGO_HEIGHT - 1 || p.x == xFirst || p.x == xFirst + LOGO_WIDTH - 1
  }

  /** The colour a pixel of the box ends up with. */
  function BoxColor(xFirst: int, yFirst: int, p: Point): PixelColor {
    if OnBorder(xFirst, yFirst, p) then BOX_BORDER else BOX_FILL
  }

  /**
   * Paints the box. Every pixel of the box is black on the border and
   * cardboard inside; every pixel outside the box is as it was.
   */
  method DrawDanboBox(writer: PixelWriter, xFirst: int, yFirst: int)
    modifies writer
    ensures forall p :: InLogoBox(xFirst, yFirst, p) ==>
              p in writer.frame && writer.frame[p] == BoxColor(xFirst, yFirst, p)
    ensures forall p :: !InLogoBox(xFirst, yFirst, p) ==>
              (p in writer.frame <==> p in old(writer.frame))
              && (p in writer.frame ==> writer.frame[p] == old(writer.frame)[p])
  {
    var xLast := xFirst + LOGO_WIDTH - 1;
    var yLast := yFirst + LOGO_HEIGHT - 1;
    var x := xFirst;
    while x <= xLast
      invariant xFirst <= x <= xLast + 1
      invariant forall p :: InLogoBox(xFirst, yFirst, p) && p.x < x ==>
                  p in writer.frame && writer.frame[p] == BoxColor(xFirst, yFirst, p)
      invariant forall p :: !(InLogoBox(xFirst, yFirst, p) && p.x < x) ==>
                  (p in writer.frame <==> p in old(writer.frame))
                  && (p in writer.frame ==> writer.frame[p] == old(writer.frame)[p])
    {
      var y := yFirst;
      while y <= yLast
        invariant yFirst <= y <= yLast + 1
        invariant forall p :: InLogoBox(xFirst, yFirst, p) && (p.x < x || (p.x == x && p.y < y)) ==>
                    p in writer.frame && writer.frame[p] == BoxColor(xFirst, yFirst, p)
        invariant forall p :: !(InLogoBox(xFirst, yFirst, p) && (p.x < x || (p.x == x && p.y < y))) ==>
                    (p in writer.frame <==> p in old(writer.frame))
                    && (p in writer.frame ==> writer.frame[p] == old(writer.frame)[p])
      {
        writer.Write(x, y, BOX_FILL);
        if y == yFirst {
          writer.Write(x, y, BOX_BORDER);
        } else if y == yLast {
          writer.Write(x, y, BOX_BORDER);
        } else if x == xFirst {
          writer.Write(x, y, BOX_BORDER);
        } else if x == xLast {
          writer.Write(x, y, BOX_BORDER);
        }
        y := y + 1;
      }
      x := x + 1;
    }
  }
}
