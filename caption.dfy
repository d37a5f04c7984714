/** The caption renderer of create_text_image: a fixed 640 x 100 black
    canvas with one line of white text placed by the centring arithmetic.
    The text extent (cv2.getTextSize) is an input; the drawing itself is
    not modelled. */
module Caption {

  const CANVAS_WIDTH: int := 640
  const CANVAS_HEIGHT: int := 100

  /** The caption raster: canvas size, its text, and the origin handed to
      cv2.putText (x of the left edge, y of the baseline). */
  datatype TextImage = TextImage(width: int, height: int, text: string, x: int, y: int)

  /** create_text_image(text) for a text measured as tw x th pixels.
      Python's // by 2 is floor division, which is Dafny's / for a positive
      divisor, negative operands included. */
  function CreateTextImage(text: string, tw: nat, th: nat): (img: TextImage)
    ensures img.width == CANVAS_WIDTH && img.height == CANVAS_HEIGHT && img.text == text
    // horizontally centred: the left margin is the right margin or one less
    ensures img.x <= CANVAS_WIDTH - (img.x + tw) <= img.x + 1
    // vertically centred on the text box above the baseline
    ensures img.y - th <= CANVAS_HEIGHT - img.y <= img.y - th + 1
  {
    TextImage(CANVAS_WIDTH, CANVAS_HEIGHT, text, (CANVAS_WIDTH - tw) / 2, (CANVAS_HEIGHT + th) / 2)
  }

  /** A text wider than the canvas gets a negative origin, exactly as the
      floor division in the source gives: it overhangs both edges alike. */
  lemma WideTextOverhangs(text: string, tw: nat, th: nat)
    requires tw > CANVAS_WIDTH
    ensures CreateTextImage(text, tw, th).x < 0
    ensures CreateTextImage(text, tw, th).x == -((tw - CANVAS_WIDTH + 1) / 2)
  {
  }
}
