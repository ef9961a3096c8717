/** Option, Result and Outcome, and the failures the map library can raise. */
module Common {

  datatype Option<+T> = None | Some(value: T)

  /** The ways a Pippa operation can fail. Each stands for an exception the
      Ruby code raises (or, for DegenerateBox, a non-finite float it produces). */
  datatype Error =
    | BlankCatalogLine(line: nat)         // `nil.downcase` on a catalog line with no tokens
    | NoMapInfo                           // `nil[1..4]`: projection wanted for an unknown map
    | BadNumber                           // `Float(s)` on a missing or malformed field
    | DegenerateBox                       // zero-height or zero-width bounding box
    | UnknownProjection(kind: Option<string>)
    | NegativeArea                        // `Math.sqrt` of a negative dot area
    | NonNumericCoordinate                // zip row whose lat or long is not a number
    | NoImage                             // `@image.format = ...` on a map without image
    | MissingFileName                     // `write_xxx` called without a file name
    | NoSuchMethod(name: string)          // `super` in `method_missing`

  datatype Result<+T> = Ok(value: T) | Err(error: Error)

  datatype Outcome = Pass | Fail(error: Error)
}
