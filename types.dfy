/** The record the extractor produces (src/types/index.ts) and the Option wrapper the model uses for
    JavaScript's null / undefined. */
module Types {

  datatype Option<+T> = None | Some(value: T)

  /** One rated movie: the cleaned title, the year found in the raw title (if any), the rating on the
      site's 1-10 scale, and the URL of the movie page. */
  datatype Movie = Movie(title: string, year: Option<int>, rating: int, url: string)

  /** The header line of the Letterboxd import format, written by both the extractor's export and
      the conversion script. */
  const LetterboxdHeader := "Title,Year,Rating,Rating10"
}
