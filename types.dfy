/** The record shape shared by the editor and the geometry helpers. */
module Types {

  /** The usual optional value; stands for JavaScript's `undefined` results
      (`Array.prototype.find` finding nothing, a missing dictionary entry). */
  datatype Option<+T> = None | Some(value: T)

  /** One anchor of a curve. `left`, `right` and `top` are offsets relative to
      the anchor `(x, y)`; `top` is the preview of the next point, shown only
      on the last point of a curve. `curveId` groups points into curves. */
  datatype Point = Point(
    id: int,
    x: real,
    y: real,
    leftX: real,
    leftY: real,
    rightX: real,
    rightY: real,
    topX: real,
    topY: real,
    curveId: int
  )
}
