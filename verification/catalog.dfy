/** The movie catalog as the recommender holds it after the CSV has been read:
    an ordered sequence of rows whose position is the identity that aligns a
    row with its similarity-matrix row and column. */
module Catalog {

  /** A value that may be missing (a NaN cell of the data frame). */
  datatype Option<+T> = None | Some(value: T) {

    /** The value, or `default` when it is missing. */
    function GetOr(default: T): T {
      match this
      case Some(v) => v
      case None => default
    }
  }

  /** One row as read: a title and the five text columns used as features,
      each of which may be missing. */
  datatype RawMovie = RawMovie(
    title: string,
    genres: Option<string>,
    keywords: Option<string>,
    tagline: Option<string>,
    cast: Option<string>,
    director: Option<string>)

  /** One row after missing feature cells have been filled: every feature is a string. */
  datatype Movie = Movie(
    title: string,
    genres: string,
    keywords: string,
    tagline: string,
    cast: string,
    director: string)
}
