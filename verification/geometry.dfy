/** Character-cell geometry shared by the controls: a point in a control's
    local space and a width/height pair used by measure and arrange. */
module Geometry {

  datatype Point = Point(x: int, y: int)

  datatype Size = Size(width: int, height: int)
}
