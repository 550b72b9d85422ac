# Anime-girls programming-books client, modelled in Dafny

This project models the core of a small client for the GitHub Contents API. The client lists the
"books" of a repository of images, where each book is a top-level folder named after a programming
language. It also lists the images inside one book, optionally capped by `limit`, and picks one image
of a book at random. The three operations of `src/books.ts` are modelled as pure functions:

- `getAllBooks` is `Books.GetAllBooks`.
- `getImagesByBook` is `Books.GetImagesByBook`.
- `getRandomImageByBook` is `Books.GetRandomImageByBook`.

Each of them takes the network as a parameter `fetch: Request -> Response`. Each returns a `Run`: the
request it sent (`None` when it sent none) together with a `Result` whose error kinds replace the
thrown `Error`s.

Files and modules:

- `types.dfy` (`Types`): the records of `src/types.ts`, `Option`, `Result`, and the error kinds.
- `http.dfy` (`Http`): requests, responses, and the shape of a parsed JSON body. A body is
  not JSON, or JSON that is not an array, or an array of `null` / non-object / object entries.
- `js.dfy` (`Js`): the JavaScript built-ins the code relies on. These are string truthiness,
  `String.prototype.trim`, `slice(0, end)`, `filter` followed by `map`, and
  `Math.floor(Math.random() * n)`.
- `books.dfy` (`Books`): the three operations, their shared image pipeline, and the properties
  that relate them.

`Response.ok` is derived from the status: it holds exactly for 200..299, as the Fetch standard
defines it. `Math.random()` becomes a parameter `u` with `0 <= u < 1`, which is the range that
function guarantees. The chosen index is `Floor(u * n)`, and `Books.PickIsUniform` shows that each
index is chosen by an interval of draws of width `1/n`.

Two behaviours of the code differ from what its documentation suggests, and the model follows the code:

- `getAllBooks` has no `Array.isArray` guard. Its filter also reads `item.type` without `?.`. So a
  non-array body, or a `null` entry in the array, ends in a JavaScript `TypeError` and not in a
  dedicated invalid-content error. The model reports `TypeFault` for both.
- `limit` is any JavaScript number, and `slice` truncates it. So a positive limit below 1 (say
  `0.5`) returns no images, while `0` and negative limits return all of them
  (`Books.FractionalLimitKeepsNothing`).

## Model

| member | source | states |
|---|---|---|
| Js.IsWhitespace | src/books.ts:53 | the set `trim` strips: the WhiteSpace and LineTerminator code points of ECMA-262; among ASCII characters exactly space and tab through carriage return |
| Js.TrimStart | src/books.ts:53 | the leading-whitespace part of `trim`: the result is a suffix of the input, what was dropped is all whitespace, and the result does not start with whitespace |
| Js.TrimEnd | src/books.ts:53 | the trailing-whitespace part of `trim`: the result is a prefix of the input, what was dropped is all whitespace, and the result does not end with whitespace |
| Js.Trim | src/books.ts:53 | `bookName.trim()` is empty exactly when the name is all whitespace; otherwise it is bounded by non-whitespace characters |
| Books.BookNameMissingIffBlank | src/books.ts:53-55 | the guard `!bookName \|\| !bookName.trim()` rejects exactly the names made only of whitespace, the empty name included |
| Books.AuthHeaders | src/books.ts:16-19 | an `Authorization` header is present exactly when the token is a non-empty string; it is `Bearer ` followed by the token; otherwise there are no headers |
| Js.Collect | src/books.ts:80-86 | filter-then-map: never longer than the input; every picked element's value is kept; every kept value comes from a picked element |
| Js.CollectAppend | src/books.ts:80-86 | filter-then-map distributes over concatenation of the input |
| Js.CollectPosition | src/books.ts:80-86 | a picked element lands at the index given by the number of picked elements before it |
| Js.CollectPrefix | src/books.ts:80-86 | the result for an input prefix is a prefix of the result, and grows strictly past each picked element |
| Js.ToIntegerOrInfinity | src/books.ts:89 | the end argument of `slice` is truncated toward zero: for a non-negative number its integer part, for a negative one the integer part rounded up |
| Books.BookOf | src/books.ts:32-36 | an entry yields a book exactly when it is an object whose `type` is the string `dir`, and the book carries that entry's name and url |
| Books.DecodeBooks | src/books.ts:29-36 | an unparseable body fails with MalformedJson; a non-array body or a `null` entry fails with TypeFault; any other array succeeds, every `dir` entry's book is listed, and every listed book comes from a `dir` entry with the same name and url |
| Books.GetAllBooks | src/books.ts:15-37 | sends one request to the root listing with the auth headers; a status outside 200..299 fails with that status; otherwise the body is decoded |
| Books.AllFilesNoBooks | src/books.ts:31-36 | a listing made only of files yields an empty list of books |
| Books.DecodeBooksAppend | src/books.ts:31-36 | for `null`-free listings, the books of `a + b` are the books of `a` followed by the books of `b` |
| Books.DecodeBooksSingle | src/books.ts:31-36 | a single non-null entry decodes to its `{name, url}` when it is a `dir` and to nothing otherwise; with the append lemma, every listing decodes to one book per `dir` entry, in upstream order, with no repeats |
| Books.BooksKeepUpstreamOrder | src/books.ts:31-36 | for a `null`-free listing, two `dir` entries become books of the decoded list in the same relative order, each as `{name, url}`; entry `i` lands at the length of the books decoded from the entries before it |
| Books.ImageOf | src/books.ts:81-86 | an entry yields an image exactly when it is an object with `type` the string `file` and a string `download_url`, and the image copies its name, size and download URL |
| Books.ImagesAreTheFileEntries | src/books.ts:80-86 | an array body always decodes; each image comes from a `file` entry with a string download URL, with name, size and URL copied unchanged; every such entry is listed; the list is no longer than the input |
| Books.DecodeImagesAppend | src/books.ts:80-86 | the images of `a + b` are the images of `a` followed by the images of `b` |
| Books.DecodeImagesSingle | src/books.ts:80-86 | a single entry decodes to its image when it qualifies and to nothing otherwise; with the append lemma, every listing decodes to one image per qualifying entry, in upstream order, with no repeats |
| Books.ImagesKeepUpstreamOrder | src/books.ts:80-86 | two qualifying entries become images of the decoded list in the same relative order; entry `i` lands at the length of the images decoded from the entries before it |
| Books.ImagesSkipOthers | src/books.ts:80-81 | a listing whose entries are all null, non-objects, non-files, or lack a string `download_url` decodes to no images |
| Books.ValidFilesListedElementwise | src/books.ts:80-86 | N file entries that all carry a string download URL decode to exactly N images, the i-th copied from the i-th entry |
| Books.DecodeImages | src/books.ts:74-86 | an unparseable body fails with MalformedJson; a non-array body fails with InvalidContent; an array always decodes, every qualifying entry's image is listed and every listed image comes from a qualifying entry (no more images than entries) |
| Books.FetchImages | src/books.ts:53-86 | a blank name fails with InvalidArgument and sends nothing; otherwise it sends one request for that book with the auth headers, fails with the status of a non-2xx response, and decodes the body |
| Js.SliceTo | src/books.ts:89 | `slice(0, end)` is a prefix; for a non-negative end it is the whole input or exactly as long as the integer part of `end` |
| Books.ApplyLimit | src/books.ts:88-92 | the limit rule gives a prefix; the whole list when the limit is absent, zero or negative; otherwise a prefix no longer than the limit, and as long as the limit's integer part unless the list is shorter |
| Books.WholeLimitKeepsFirst | src/books.ts:88-92 | a positive whole limit `k` keeps exactly the first `min(k, n)` images |
| Books.FractionalLimitKeepsNothing | src/books.ts:88-89 | a limit strictly between 0 and 1 keeps no image |
| Books.LimitIdempotentAndMonotone | src/books.ts:88-92 | limiting twice is limiting once; a larger positive limit never gives a shorter prefix |
| Books.GetImagesByBook | src/books.ts:49-93 | sends what the shared pipeline sends and fails as it fails; on success it returns the whole filtered list when the limit is absent, zero or negative, and otherwise a prefix no longer than the limit that is the whole list or as long as the limit's integer part |
| Books.LimitedListingIsPrefix | src/books.ts:88-92 | the listing with a limit and the listing without one send the same request and fail alike; on success the limited one is a prefix of the unlimited one, and equal to it when the limit is absent, zero or negative |
| Js.ScaledIndex | src/books.ts:146 | `Math.floor(u * n)` for `0 <= u < 1` is an index below `n` whose interval `[i/n, (i+1)/n)` contains `u` |
| Books.PickImage | src/books.ts:142-148 | an empty list fails with NoImages; a non-empty one succeeds with the element at index `Math.floor(u * n)`, so the pick is a member of the list and a single image is always the pick |
| Books.PickIsUniform | src/books.ts:146 | index `i` is chosen by exactly the draws in `[i/n, (i+1)/n)`, an interval of width `1/n`, so a uniform draw gives a uniform pick |
| Books.EveryImageCanBePicked | src/books.ts:146-148 | for every image there is a draw in `[0, 1)` that picks it |
| Books.GetRandomImageByBook | src/books.ts:103-149 | sends what the shared pipeline sends and fails as it fails; a non-empty filtered list gives the element the draw selects; it fails with NoImages exactly when that list is empty |
| Books.BlankNameSendsNothing | src/books.ts:53-55 | for both image operations (also src/books.ts:107-109), no request is sent exactly when the name is all whitespace, and then the result is InvalidArgument |
| Books.NotOkFailsWithStatus | src/books.ts:23-27 | a status outside 200..299 fails all three operations with that status, whatever the body (also src/books.ts:68-72 and 122-126) |
| Books.NonArrayIsInvalidContent | src/books.ts:76-78 | a non-array body fails both image operations with InvalidContent (also src/books.ts:130-132) |
| Books.RandomPickIsFromListing | src/books.ts:134-148 | the random pick ignores `limit`; it sends what the unlimited listing sends; a non-empty listing gives that listing's element at the drawn index; it fails with NoImages exactly when that listing is empty, and with the listing's error otherwise |
| Books.SingleImageAlwaysPicked | src/books.ts:142-148 | with exactly one qualifying image, every draw returns that image |

## Left out

- Network I/O, `response.json()` and async suspension: `fetch` is a pure function parameter, and the parsed body is part of the response value. A rejected fetch (a network error) is not modelled.
- URL assembly: the `BOOKS_API_URL` constant, `encodeURIComponent` (the percent-encoding of section 2.1 of RFC 3986) and `?ref=master`. A request names its target by the raw book name.
- Error message texts and `statusText`: only the error kind is kept, plus the HTTP status for upstream failures.
- `Math.random` and floating point: the draw is an exact real in `[0, 1)`, and `u * n` is exact. `limit` is an exact real, so NaN and the infinities are not modelled. Sizes are integers.
- Books.DecodeBooks: the body is cast to `GithubContentItem[]` without any check, and `name` and `url` are copied as they are. The model types them as strings, so it does not show a missing or non-string `name` or `url` passing through.
- Books.DecodeImages: `name` and `size` are copied unchecked (`as string`, `as number`). The model types them as a string and an integer, so it does not show other JSON values passing through.
- Strings are sequences of Unicode scalar values, not UTF-16 code units. A `bookName` holding a lone surrogate makes `encodeURIComponent` throw a URIError before any request; the model cannot express such a name, so it does not model that failure.
- Callers that ignore the TypeScript types, for example a string `limit` or a non-string `bookName`, are not modelled.
