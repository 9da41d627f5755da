/**
 * The orientation step of `corregir_orientacion`: the EXIF Orientation tag
 * (0x0112) chooses the angle `Image.rotate` turns the photo by.
 */
module Orientation {
  import opened Outcomes

  /**
   * The counter-clockwise angle, in degrees, passed to `image.rotate` for the
   * tag's value (`None` when the tag is absent); `None` as result means the
   * image is left as it is.
   */
  function RotationAngle(orientation: Option<int>): Option<int>
  {
    match orientation
    case Some(3) => Some(180)
    case Some(6) => Some(270)
    case Some(8) => Some(90)
    case _ => None
  }

  /**
   * The clockwise turn, in degrees, that the Exif standard's Orientation
   * values 1, 3, 6 and 8 ask for to display the image upright.
   */
  function UprightClockwise(orientation: int): int
    requires orientation in {1, 3, 6, 8}
  {
    if orientation == 3 then 180 else if orientation == 6 then 90 else if orientation == 8 then 270 else 0
  }

  /**
   * Only the values 3, 6 and 8 rotate the image, and for them the
   * counter-clockwise rotation undoes the turn the tag records;
   * every other value (the mirrored ones included) and a missing tag leave
   * the image unchanged.
   */
  lemma RotationUprights(orientation: Option<int>)
    ensures RotationAngle(orientation).Some? <==>
              orientation.Some? && orientation.value in {3, 6, 8}
    ensures RotationAngle(orientation).Some? ==>
              RotationAngle(orientation).value in {90, 180, 270} &&
              (RotationAngle(orientation).value + UprightClockwise(orientation.value)) % 360 == 0
  {}
}
