/** Optional values, results, and the ways an analysis run can stop early. */
module Results {

  datatype Option<T> = None | Some(value: T)

  datatype Result<T, E> = Success(value: T) | Failure(error: E)

  /** Why a run produces no report. */
  datatype Failure =
    | UnsupportedFormat   // the upload's name ends in none of the accepted suffixes
    | MissingColumns      // `wkt_geom` or `Plantation Code` is absent
    | ZeroDivision        // the overlap scan divides by a zero area
}
