/** The canvas part of `Printer._annotate_image`: a new white RGB canvas
    as wide as the image and `txt_h + 5` pixels taller, the image pasted
    at the origin, and the anchor where the wrapped text is centred. */
module Annotation {
  import opened Sizing

  newtype Channel = c: int | 0 <= c < 256

  /** An RGB pixel, the mode of the canvas the source creates. */
  datatype Pixel = Pixel(red: Channel, green: Channel, blue: Channel)

  const White := Pixel(255, 255, 255)

  /** Pixels below the image kept free for the text besides its height. */
  const Margin: nat := 5

  /** A canvas coordinate (x, y), x counted from the left, y from the top. */
  datatype Point = Point(x: nat, y: nat)

  /** Size of the annotated canvas: same width, `img_h + txt_h + 5` high. */
  function AnnotatedSize(image: Size, textHeight: nat): (s: Size)
    ensures s.width == image.width
    ensures s.height > image.height
    ensures s.height - image.height == textHeight + Margin
  {
    Size(image.width, image.height + textHeight + Margin)
  }

  /** The text anchor: horizontal middle of the canvas, and the middle of
      the band below the image, both computed from the new canvas size
      and truncated. */
  function TextAnchor(image: Size, textHeight: nat): (p: Point)
    ensures var canvas := AnnotatedSize(image, textHeight);
      p.x * 2 <= canvas.width <= p.x * 2 + 1 &&
      image.height <= p.y < canvas.height &&
      (p.y - image.height) * 2 <= canvas.height - image.height <= (p.y - image.height) * 2 + 1
  {
    var canvas := AnnotatedSize(image, textHeight);
    Point(canvas.width / 2, (canvas.height - image.height) / 2 + image.height)
  }

  /** Creates the canvas (`Image.new` filled white), pastes `image` at
      (0, 0) pixel by pixel and returns the canvas with the text anchor.
      Arrays are indexed `[x, y]`, so `Length0` is the width. The text
      itself is not drawn. */
  method AnnotateCanvas(image: array2<Pixel>, textHeight: nat) returns (canvas: array2<Pixel>, anchor: Point)
    ensures fresh(canvas)
    ensures Size(canvas.Length0, canvas.Length1) == AnnotatedSize(Size(image.Length0, image.Length1), textHeight)
    ensures forall x, y :: 0 <= x < canvas.Length0 && 0 <= y < canvas.Length1 ==>
      canvas[x, y] == if y < image.Length1 then image[x, y] else White
    ensures anchor == TextAnchor(Size(image.Length0, image.Length1), textHeight)
  {
    var w, h := image.Length0, image.Length1;
    var size := AnnotatedSize(Size(w, h), textHeight);
    canvas := new Pixel[size.width, size.height]((x, y) => White);
    var y := 0;
    while y < h
      invariant 0 <= y <= h
      invariant forall i, j :: 0 <= i < w && 0 <= j < size.height ==>
        canvas[i, j] == if j < y then image[i, j] else White
    {
      var x := 0;
      while x < w
        invariant 0 <= x <= w
        invariant forall i, j :: 0 <= i < w && 0 <= j < size.height ==>
          canvas[i, j] == if j < y || (j == y && i < x) then image[i, j] else White
      {
        canvas[x, y] := image[x, y];
        x := x + 1;
      }
      y := y + 1;
    }
    anchor := TextAnchor(Size(w, h), textHeight);
  }
}
