/**
  EXIF orientation correction in `insert_image_page`: the orientation tag picks
  a counter-clockwise rotation angle, and the rotation grows the canvas to hold
  the turned picture (PIL's `rotate(angle, expand=True)`), so a quarter turn
  swaps width and height. The pixel rotation itself is not modelled, only the
  angle and the picture's dimensions.
 */
module Orientation {

  import opened Optional

  /** EXIF tag number of Orientation. */
  const OrientationTag: int := 0x0112

  /** Pixel dimensions of a picture. */
  datatype Size = Size(width: nat, height: nat)

  /** The counter-clockwise angle, in degrees, the picture is rotated by before layout.
      `exif` is the picture's EXIF block (tag number to value), if it has one. */
  function CorrectionAngle(exif: Option<map<int, int>>): (deg: int)
    ensures deg == 0 || deg == 90 || deg == 180 || deg == 270
    ensures deg != 0 <==>
              exif.Some? && OrientationTag in exif.value && exif.value[OrientationTag] in {3, 6, 8}
  {
    if exif.Some? && OrientationTag in exif.value then
      var orientation := exif.value[OrientationTag];
      if orientation == 3 then 180
      else if orientation == 6 then 270
      else if orientation == 8 then 90
      else 0
    else 0
  }

  /** Reference reading of the EXIF standard: for the four orientation values that
      involve no mirroring, the counter-clockwise angle by which the stored pixel
      grid is turned away from the upright scene. Value 1 is upright; 3 is upside
      down; 6 stores the scene's top on the left (turned a quarter counter-clockwise);
      8 stores it on the right (three quarters counter-clockwise). */
  function StoredTurn(orientation: int): Option<int>
  {
    if orientation == 1 then Some(0)
    else if orientation == 3 then Some(180)
    else if orientation == 6 then Some(90)
    else if orientation == 8 then Some(270)
    else None
  }

  /** For every orientation that is a pure rotation, the correction turns the stored
      picture back upright: stored turn plus correction is a whole number of turns. */
  lemma CorrectionUndoesStoredTurn(exif: map<int, int>)
    requires OrientationTag in exif && StoredTurn(exif[OrientationTag]).Some?
    ensures (StoredTurn(exif[OrientationTag]).value + CorrectionAngle(Some(exif))) % 360 == 0
  {
  }

  /** The picture after `rotate(deg, expand=True)` for a quarter-turn angle: nothing is
      cropped and nothing is added, the sides are the same two lengths. */
  function Rotate(s: Size, deg: int): (r: Size)
    requires deg % 90 == 0
    ensures r.width * r.height == s.width * s.height
    ensures multiset{r.width, r.height} == multiset{s.width, s.height}
    ensures (deg / 90) % 2 == 0 ==> r == s
    ensures (deg / 90) % 2 != 0 ==> r.width == s.height
  {
    if (deg / 90) % 2 == 0 then s else Size(s.height, s.width)
  }

  /** Rotations compose by adding their angles; in particular 270 then 90 is no rotation. */
  lemma RotateCompose(s: Size, a: int, b: int)
    requires a % 90 == 0 && b % 90 == 0
    ensures Rotate(Rotate(s, a), b) == Rotate(s, a + b)
  {
    assert (a + b) / 90 == a / 90 + b / 90;
  }

  lemma RotateBack(s: Size)
    ensures Rotate(Rotate(s, 270), 90) == s
  {
    RotateCompose(s, 270, 90);
  }

}
