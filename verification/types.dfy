/** Shapes shared by the whole client: the records of src/types.ts, the loose
    JSON fields the decoders inspect, and the outcome wrappers the operations
    return instead of throwing. */
module Types {

  datatype Option<+T> = None | Some(value: T)

  /** The distinguishable ways an operation can fail. The source throws an
      `Error` whose message differs per case; the model keeps only the kind
      (and the HTTP status where the message carries it). */
  datatype Error =
    | InvalidArgument        // bookName is empty or whitespace only
    | Upstream(status: int)  // the response status is outside 200..299
    | MalformedJson          // response.json() rejects: the body is not JSON
    | InvalidContent         // the body is JSON but not an array
    | TypeFault              // a TypeError from touching a property of null or calling filter on a non-array
    | NoImages               // the random pick found nothing to choose from

  datatype Result<+T> = Ok(value: T) | Err(error: Error)

  /** A property of a JSON object read with `typeof x === "string"` in mind:
      either a string, or anything else (absent, null, number, object, ...). */
  datatype Field = Str(text: string) | NonString

  /** One object of a GitHub contents listing (GithubContentItem). `kind` is
      the `type` property; `downloadUrl` is `download_url`, which only file
      entries carry. */
  datatype RawItem = RawItem(kind: Field, name: string, url: string, size: int, downloadUrl: Field)

  /** A folder of the repository exposed as a book (ProgrammingBook). */
  datatype ProgrammingBook = ProgrammingBook(name: string, url: string)

  /** One image of a book (BookImage). */
  datatype BookImage = BookImage(name: string, size: int, downloadUrl: string)

  /** GetBooksOptions. */
  datatype BooksOptions = BooksOptions(authToken: Option<string>)

  /** GetBookImagesOptions; `limit` is a JavaScript number when present. */
  datatype ImagesOptions = ImagesOptions(limit: Option<real>, authToken: Option<string>)
}
