/** The network boundary, reduced to values: the request an operation would
    send and the response the caller-supplied fetch hands back. */
module Http {
  import opened Types

  /** Which contents endpoint is addressed. The URL itself (base constant,
      percent-encoding of the book name, `?ref=master`) is not modelled; the
      raw book name stands for its encoded form. */
  datatype Target = RootContents | BookContents(bookName: string)

  datatype Request = Request(target: Target, headers: map<string, string>)

  /** One element of a JSON array body: `null`, a non-object value (number,
      string, boolean, array), or an object. */
  datatype Entry = Null | NonObject | Object(item: RawItem)

  /** What `await response.json()` yields: a syntax error, a JSON value that
      is not an array, or an array. */
  datatype Body = Unparseable | NonArray | Array(entries: seq<Entry>)

  datatype Response = Response(status: int, body: Body) {
    /** `response.ok` of the Fetch standard: the status is in 200..299. */
    predicate Ok() {
      200 <= status <= 299
    }
  }

  /** What an operation did: the request it sent, if any, and its outcome. */
  datatype Run<+T> = Run(sent: Option<Request>, result: Result<T>)
}
