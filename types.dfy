/** The record shapes of src/types.ts. */
module Types {
  import opened Wrappers

  /** A map coordinate `{ x, y }`; floating point is modelled as `real`. */
  datatype Point = Point(x: real, y: real)

  /** The four elements a sign belongs to: 火, 土, 風, 水. */
  datatype Element = Fire | Earth | Air | Water

  /** One catalog entry, together with the key it is stored under. */
  datatype ZodiacSign = ZodiacSign(
    key: string,
    name: string,
    symbol: string,
    element: Element,
    dateRange: string,
    color: string,
    opposite: string)

  /**
   * A person. `position` is `null` while the person is on the unplaced roster;
   * `placedOppositeSign` is an optional field, absent until a drop sets it.
   */
  datatype User = User(
    id: string,
    name: string,
    sign: string,
    position: Option<Point>,
    placedOppositeSign: Option<string>)
}
